/** Which patches apply_patch accepts, and what it answers to the others. */
module JsonPatchStatus {
  import opened CTypes
  import opened Names
  import opened Json
  import opened JsonPointer
  import opened JsonPatch
  import opened JsonPatchLaws
  import opened JsonPatchOperations
  import opened JsonLinks
  import opened JsonPatchApply
  import opened JsonPatchRuns

  /** The path ends with a step, by a child name, from the node at loc. */
  ghost predicate LastStep(doc: Json, path: cstring, cs: bool, loc: Path, child: cstring) {
    exists k: nat :: k < |path| && EndsStep(doc, path, cs, loc, child, k)
  }

  /** Its parts are what stands before and behind the slash at k, the last one. */
  predicate EndsStep(doc: Json, path: cstring, cs: bool, loc: Path, child: cstring, k: nat)
    requires k < |path|
  {
    && path[k] == SLASH && SLASH !in path[k + 1..]
    && Resolve(doc, path[..k], cs) == Some(loc) && child == DecodeInplace(path[k + 1..])
  }

  /** A node has a child of that name: an element of that index, or a member of that name in any case. */
  predicate HasChild(j: Json, child: cstring) {
    match j
    case Array(items) => exists i :: 0 <= i < |items| && DecodeIndexText(child) == Some(i)
    case Object(members) => exists i :: 0 <= i < |members| && SameKey(child, members[i].name, false)
    case _ => false
  }

  /** A node takes a child of that name: an array at an index up to its length or at "-", an object always. */
  predicate TakesChild(j: Json, child: cstring) {
    match j
    case Array(items) => Spelled(child, "-") || exists i :: 0 <= i <= |items| && DecodeIndexText(child) == Some(i)
    case Object(_) => true
    case _ => false
  }

  /** Something is there that a remove, a replace or a move can take away. */
  ghost predicate Present(doc: Json, path: cstring, cs: bool) {
    exists loc, child ::
      LastStep(doc, path, cs, loc, child) && ValidPath(doc, loc) && HasChild(At(doc, loc), child)
  }

  /** There is a place for what an add, a move or a copy brings. */
  ghost predicate Receives(doc: Json, path: cstring, cs: bool) {
    exists loc, child ::
      LastStep(doc, path, cs, loc, child) && ValidPath(doc, loc) && TakesChild(At(doc, loc), child)
  }

  /** The last step is the one behind the last slash. */
  lemma StepsOnce(doc: Json, path: cstring, cs: bool)
    ensures match LastSlash(path)
            case None => forall loc, child :: !LastStep(doc, path, cs, loc, child)
            case Some(k) => forall loc, child ::
                LastStep(doc, path, cs, loc, child) <==>
                Resolve(doc, path[..k], cs) == Some(loc) && child == DecodeInplace(path[k + 1..])
  {
    hide Resolve, DecodeInplace, LastSlash;
    forall k: nat | k < |path| && path[k] == SLASH && SLASH !in path[k + 1..]
      ensures LastSlash(path) == Some(k)
    {
      LastSlashAt(path[..k], path[k + 1..]);
      assert path == path[..k] + [SLASH] + path[k + 1..];
    }
    if LastSlash(path).Some? {
      var k := LastSlash(path).value;
      forall loc, child |
        Resolve(doc, path[..k], cs) == Some(loc) && child == DecodeInplace(path[k + 1..])
        ensures LastStep(doc, path, cs, loc, child)
      {
        assert EndsStep(doc, path, cs, loc, child, k);
      }
    }
  }

  /** What is there depends on the one step there is. */
  lemma StepDecides(doc: Json, path: cstring, cs: bool, loc: Path, child: cstring)
    requires ValidPath(doc, loc) && LastStep(doc, path, cs, loc, child)
    ensures Present(doc, path, cs) <==> HasChild(At(doc, loc), child)
    ensures Receives(doc, path, cs) <==> TakesChild(At(doc, loc), child)
    ensures Reaches(doc, path, cs) <==> At(doc, loc).Array? || At(doc, loc).Object?
    ensures Indexed(doc, path, cs) <==> DecodeIndexText(child).Some?
  {
    StepsOnce(doc, path, cs);
    hide LastStep, Resolve, LastSlash, DecodeInplace, DecodeIndexText, At, HasChild, TakesChild;
    assert forall loc', child' :: LastStep(doc, path, cs, loc', child') ==> loc' == loc && child' == child;
  }

  /** detach_path finds something exactly when it is there. */
  lemma DetachesIff(doc: Json, path: cstring, cs: bool)
    ensures DetachPath(doc, path, cs).Some? <==> Present(doc, path, cs)
  {
    StepsOnce(doc, path, cs);
    hide Resolve, DecodeInplace, DecodeIndexText, LastSlash, LastStep, At, Put, Lookup, SameKey;
    var slash := LastSlash(path);
    if slash.Some? && Resolve(doc, path[..slash.value], cs).Some? {
      var loc, child := Resolve(doc, path[..slash.value], cs).value, DecodeInplace(path[slash.value + 1..]);
      StepDecides(doc, path, cs, loc, child);
      hide Present;
      if At(doc, loc).Object? {
        LookupFirst(At(doc, loc).members, child, false);
      }
    }
  }

  /** The path ends with a step from a node that has children. */
  ghost predicate Reaches(doc: Json, path: cstring, cs: bool) {
    exists loc, child ::
      && LastStep(doc, path, cs, loc, child) && ValidPath(doc, loc)
      && (At(doc, loc).Array? || At(doc, loc).Object?)
  }

  /** The path ends with a step from an array, by an index. */
  ghost predicate Indexed(doc: Json, path: cstring, cs: bool) {
    exists loc, child ::
      LastStep(doc, path, cs, loc, child) && DecodeIndexText(child).Some?
  }

  /** The status of an add at a path: 9 without a node that has children, 11 without an index, 10 beyond the
      end of an array. */
  ghost predicate Placed(doc: Json, path: cstring, cs: bool, status: int) {
    && status in {0, 9, 10, 11} && (status == 0 <==> Receives(doc, path, cs))
    && (status == 9 <==> !Reaches(doc, path, cs))
    && (status == 11 ==> !Indexed(doc, path, cs)) && (status == 10 ==> Indexed(doc, path, cs))
  }

  lemma AddAnswers(doc: Json, path: cstring, value: Json, cs: bool)
    ensures Placed(doc, path, cs, AddAtPath(doc, path, value, cs).1)
  {
    StepsOnce(doc, path, cs);
    hide Resolve, DecodeInplace, DecodeIndexText, LastSlash, LastStep, At, AddAtPath, HasChild, TakesChild;
    AddStatus(doc, path, value, cs);
    var slash := LastSlash(path);
    if slash.Some? && Resolve(doc, path[..slash.value], cs).Some? {
      var loc, child := Resolve(doc, path[..slash.value], cs).value, DecodeInplace(path[slash.value + 1..]);
      StepDecides(doc, path, cs, loc, child);
      hide Receives, Reaches, Indexed;
    }
  }

  lemma AddStatus(doc: Json, path: cstring, value: Json, cs: bool)
    ensures var status, slash := AddAtPath(doc, path, value, cs).1, LastSlash(path);
            if slash.None? || Resolve(doc, path[..slash.value], cs).None? then status == 9
            else
              var parent := At(doc, Resolve(doc, path[..slash.value], cs).value);
              var child := DecodeInplace(path[slash.value + 1..]);
              && status in {0, 9, 10, 11} && (status == 0 <==> TakesChild(parent, child))
              && (status == 9 <==> !(parent.Array? || parent.Object?))
              && (status == 11 ==> DecodeIndexText(child).None?) && (status == 10 ==> DecodeIndexText(child).Some?)
  {
    hide Resolve, DecodeInplace, DecodeIndexText, LastSlash, At, Put, Lookup, DeleteMember;
    var slash := LastSlash(path);
    if slash.Some? {
      var child := DecodeInplace(path[slash.value + 1..]);
      assert child == [HYPHEN] <==> Spelled(child, "-");
    }
  }

  /** The six operations by their names. */
  lemma OperationNames()
    ensures Spelled(ADD, "add") && Spelled(REMOVE, "remove") && Spelled(REPLACE, "replace")
    ensures Spelled(MOVE, "move") && Spelled(COPY, "copy") && Spelled(TEST, "test")
    ensures Spelled(OP, "op") && Spelled(PATH, "path") && Spelled(VALUE, "value") && Spelled(FROM, "from")
  {}

  lemma SpelledOnce(s: cstring, t: cstring, literal: string)
    requires Spelled(t, literal)
    ensures Spelled(s, literal) <==> s == t
  {}

  /** What a patch other than a test has to bring, and to find: a remove something to take away, an add a value
      and a place for it, a replace both, a copy something to copy and a place for it, a move something to take
      away and a place in what is left. The root can be removed, added and replaced, but nothing can be copied or
      moved there. */
  ghost predicate Applicable(doc: Json, patch: Json, op: cstring, path: cstring, cs: bool) {
    var value, from := GetMember(patch, VALUE, cs), GetMember(patch, FROM, cs);
    || (Spelled(op, "remove") && (path == [] || Present(doc, path, cs)))
    || (Spelled(op, "add") && value.Some? && (path == [] || Receives(doc, path, cs)))
    || (Spelled(op, "replace") && value.Some? && (path == [] || Present(doc, path, cs)))
    || (Spelled(op, "copy") && from.Some? && from.value.String? &&
        Resolve(doc, from.value.s, cs).Some? && Receives(doc, path, cs))
    || (Spelled(op, "move") && from.Some? && from.value.String? &&
        Present(doc, from.value.s, cs) && DetachPath(doc, from.value.s, cs).Some? &&
        Receives(DetachPath(doc, from.value.s, cs).value.doc, path, cs))
  }

  /** A remove answers 13 when there is nothing to take away. */
  lemma RemoveAnswers(doc: Json, patch: Json, path: cstring, cs: bool)
    requires Asks(patch, REMOVE, path, cs)
    ensures Edit(doc, patch, cs).1 == if path == [] || Present(doc, path, cs) then 0 else 13
  {
    hide GetMember, DetachPath, AddAtPath, Present;
    DetachesIff(doc, path, cs);
  }

  /** An add answers 7 without a value, and what AddAnswers says without a place for it. */
  lemma AdditionAnswers(doc: Json, patch: Json, path: cstring, cs: bool)
    requires Asks(patch, ADD, path, cs)
    ensures var value, status := GetMember(patch, VALUE, cs), Edit(doc, patch, cs).1;
            && (value.None? ==> status == 7)
            && (value.Some? && path == [] ==> status == 0)
            && (value.Some? && path != [] ==> Placed(doc, path, cs, status))
  {
    hide GetMember, DetachPath, AddAtPath, Placed;
    var value := GetMember(patch, VALUE, cs);
    if value.Some? { AddAnswers(doc, path, value.value, cs); }
  }

  /** A replace answers 13 when there is nothing to take away, and 7 without a value. */
  lemma ReplaceAnswers(doc: Json, patch: Json, path: cstring, cs: bool)
    requires Asks(patch, REPLACE, path, cs)
    ensures Edit(doc, patch, cs).1 ==
            if path != [] && !Present(doc, path, cs) then 13 else if GetMember(patch, VALUE, cs).None? then 7 else 0
  {
    hide GetMember, DetachPath, AddAtPath, Present;
    DetachesIff(doc, path, cs);
    if path != [] { ReplaceSucceedsIff(doc, patch, path, cs); }
  }

  /** A copy answers 4 without `from`, 5 when nothing is there, and what AddAnswers says without a place for it. */
  lemma CopyAnswers(doc: Json, patch: Json, path: cstring, cs: bool)
    requires Asks(patch, COPY, path, cs)
    ensures var from, status := GetMember(patch, FROM, cs), Edit(doc, patch, cs).1;
            if from.None? then status == 4
            else if !from.value.String? || Resolve(doc, from.value.s, cs).None? then status == 5
            else Placed(doc, path, cs, status)
  {
    hide GetMember, DetachPath, AddAtPath, Placed, Resolve;
    var taken := TakeFrom(doc, patch, false, cs);
    if taken.Some? { AddAnswers(taken.value.doc, path, taken.value.item, cs); }
  }

  /** A move answers 4 without `from`, 5 when there is nothing to take away, and what AddAnswers says when what is
      left has no place for it. */
  lemma MoveAnswers(doc: Json, patch: Json, path: cstring, cs: bool)
    requires Asks(patch, MOVE, path, cs)
    ensures var from, status := GetMember(patch, FROM, cs), Edit(doc, patch, cs).1;
            if from.None? then status == 4
            else if !from.value.String? || !Present(doc, from.value.s, cs) then status == 5
            else
              && DetachPath(doc, from.value.s, cs).Some?
              && Placed(DetachPath(doc, from.value.s, cs).value.doc, path, cs, status)
  {
    hide GetMember, DetachPath, AddAtPath, Placed, Present;
    var from, taken := GetMember(patch, FROM, cs), TakeFrom(doc, patch, true, cs);
    if from.Some? && from.value.String? { DetachesIff(doc, from.value.s, cs); }
    if taken.Some? { AddAnswers(taken.value.doc, path, taken.value.item, cs); }
  }

  predicate Operation(op: cstring) {
    Spelled(op, "add") || Spelled(op, "remove") || Spelled(op, "replace") || Spelled(op, "move") || Spelled(op, "copy")
  }

  lemma Operations(op: cstring)
    ensures Spelled(op, "add") <==> op == ADD
    ensures Spelled(op, "remove") <==> op == REMOVE
    ensures Spelled(op, "replace") <==> op == REPLACE
    ensures Spelled(op, "move") <==> op == MOVE
    ensures Spelled(op, "copy") <==> op == COPY
    ensures Operation(op) <==> op in {ADD, REMOVE, REPLACE, MOVE, COPY}
  {
    OperationNames();
    SpelledOnce(op, ADD, "add");
    SpelledOnce(op, REMOVE, "remove");
    SpelledOnce(op, REPLACE, "replace");
    SpelledOnce(op, MOVE, "move");
    SpelledOnce(op, COPY, "copy");
    hide Spelled;
  }

  /** A patch without a path answers 2, one with an unknown operation 3; no other answers these. */
  lemma MalformedAnswers(doc: Json, patch: Json, cs: bool)
    ensures var op, path := GetMember(patch, OP, cs), GetMember(patch, PATH, cs);
            && (Edit(doc, patch, cs).1 == 2 <==> !(path.Some? && path.value.String?))
            && (Edit(doc, patch, cs).1 == 3 <==>
                  path.Some? && path.value.String? && !(op.Some? && op.value.String? && Operation(op.value.s)))
  {
    hide GetMember, DetachPath, AddAtPath, Operation, Spelled, TakeFrom, Placed, Resolve, Present;
    var op, path := GetMember(patch, OP, cs), GetMember(patch, PATH, cs);
    if op.Some? && op.value.String? && path.Some? && path.value.String? {
      Operations(op.value.s);
      if Operation(op.value.s) { KnownAnswers(doc, patch, op.value.s, path.value.s, cs); }
    }
  }

  lemma KnownAnswers(doc: Json, patch: Json, op: cstring, path: cstring, cs: bool)
    requires Asks(patch, op, path, cs) && op in {ADD, REMOVE, REPLACE, MOVE, COPY}
    ensures Edit(doc, patch, cs).1 in {0, 4, 5, 7, 9, 10, 11, 13}
  {
    hide GetMember, DetachPath, Edit, Resolve, Present, Receives, Reaches, Indexed;
    if op == REMOVE {
      RemoveAnswers(doc, patch, path, cs);
    } else if op == ADD {
      AdditionAnswers(doc, patch, path, cs);
    } else if op == REPLACE {
      ReplaceAnswers(doc, patch, path, cs);
    } else if op == COPY {
      CopyAnswers(doc, patch, path, cs);
    } else {
      MoveAnswers(doc, patch, path, cs);
    }
  }

  /** A patch other than a test succeeds exactly when it is applicable. */
  lemma EditSucceedsIff(doc: Json, patch: Json, op: cstring, path: cstring, cs: bool)
    requires Asks(patch, op, path, cs)
    ensures Edit(doc, patch, cs).1 == 0 <==> Applicable(doc, patch, op, path, cs)
  {
    Operations(op);
    hide Spelled, GetMember, Present, Receives, Reaches, Indexed, Resolve, DetachPath, Edit, Asks;
    if op == REMOVE {
      RemoveAnswers(doc, patch, path, cs);
    } else if op == ADD {
      AdditionAnswers(doc, patch, path, cs);
    } else if op == REPLACE {
      ReplaceAnswers(doc, patch, path, cs);
    } else {
      CarriedSucceedsIff(doc, patch, op, path, cs);
    }
  }

  lemma CarriedSucceedsIff(doc: Json, patch: Json, op: cstring, path: cstring, cs: bool)
    requires Asks(patch, op, path, cs) && op !in {REMOVE, ADD, REPLACE}
    ensures Edit(doc, patch, cs).1 == 0 <==> Applicable(doc, patch, op, path, cs)
  {
    Operations(op);
    hide Spelled, GetMember, Present, Receives, Reaches, Indexed, Resolve, DetachPath, Edit;
    if op == COPY {
      CopyAnswers(doc, patch, path, cs);
    } else if op == MOVE {
      MoveAnswers(doc, patch, path, cs);
    } else {
      MalformedAnswers(doc, patch, cs);
    }
  }

  // ---- Documents as they are linked ----

  lemma AddToAnswers(d: Doc, path: cstring, value: Doc, v: Json, cs: bool)
    ensures AddTo(d, path, value, cs).1 in {UNDEFINED, AddAtPath(Erase(d), path, v, cs).1}
  {
    hide Resolve, LastSlash, DecodeInplace, DecodeIndexText, Lookup, DocAt, DocPut, Put, At, Erase, EraseEntries;
    hide DeleteEntry, DeleteMember, WithEntry, EraseItems;
    var slash := LastSlash(path);
    if slash.Some? && Resolve(Erase(d), path[..slash.value], cs).Some? {
      var loc := Resolve(Erase(d), path[..slash.value], cs).value;
      DocAtErased(d, loc);
      match DocAt(d, loc) {
        case List(items) => ListErased(items);
        case Record(entries, link) => EraseRecord(entries, link);
        case _ => ScalarErased(DocAt(d, loc));
      }
    }
  }

  lemma TakenErased(d: Doc, patch: Json, move: bool, cs: bool)
    ensures Take(d, patch, move, cs).Some? <==> TakeFrom(Erase(d), patch, move, cs).Some?
    ensures Take(d, patch, move, cs).Some? ==>
              Erase(Take(d, patch, move, cs).value.doc) == TakeFrom(Erase(d), patch, move, cs).value.doc
  {
    hide GetMember, DetachPath, DetachFrom, Resolve, Erase, Lift, At, DocAt;
    match GetMember(patch, FROM, cs) {
      case Some(String(from)) => DetachErased(d, from, cs);
      case _ =>
    }
  }

  /** Whatever has become of the links of a document, a patch other than a test answers as it would on the plain
      document, unless it appends through a link to a node that has left its list. */
  lemma AnswersAsEdit(d: Doc, patch: Json, cs: bool)
    requires GetMember(patch, OP, cs) != Some(String(TEST))
    ensures ApplyPatch(d, patch, cs).1 in {UNDEFINED, Edit(Erase(d), patch, cs).1}
  {
    hide GetMember, DetachPath, DetachFrom, Resolve, Erase, Lift, AddTo, AddAtPath, Take, TakeFrom;
    var op, path, value := GetMember(patch, OP, cs), GetMember(patch, PATH, cs), GetMember(patch, VALUE, cs);
    if path.Some? && path.value.String? && op.Some? && op.value.String? {
      var p := path.value.s;
      DetachErased(d, p, cs);
      TakenErased(d, patch, op.value.s == MOVE, cs);
      var removed, taken := DetachFrom(d, p, cs), Take(d, patch, op.value.s == MOVE, cs);
      if value.Some? {
        AddToAnswers(d, p, Lift(value.value), value.value, cs);
        if removed.Some? { AddToAnswers(removed.value.doc, p, Lift(value.value), value.value, cs); }
      }
      if taken.Some? {
        var item := TakeFrom(Erase(d), patch, op.value.s == MOVE, cs).value.item;
        AddToAnswers(taken.value.doc, p, taken.value.item, item, cs);
      }
    }
  }
}
