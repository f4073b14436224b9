/**
  Patches whose paths end in names that do not survive decoding, or that lead below a member: what they
  leave untouched. The lemmas follow the walk of create_patches over two sorted objects.
*/
module JsonPatchMisled {
  import opened CTypes
  import opened Names
  import opened Numerals
  import opened Sorting
  import opened Json
  import opened JsonPointer
  import opened JsonPatch
  import opened JsonPatchLaws
  import opened JsonPatchDecode

  // ---- Patches inside a member ----

  /** A patch whose path goes on below the given path. */
  ghost predicate Inside(patch: Json, path: cstring) {
    exists op: cstring, rest: cstring, value: Option<Json> ::
      op in {ADD, REMOVE, REPLACE} && (op == REMOVE <==> value.None?) &&
      patch == Compose(op, path + [SLASH] + rest, None, value)
  }

  ghost predicate AllInside(patches: seq<Json>, path: cstring) {
    forall i :: 0 <= i < |patches| ==> Inside(patches[i], path)
  }

  lemma ComposeSuffix(op: cstring, path: cstring, suffix: cstring, value: Option<Json>)
    requires op in {ADD, REMOVE, REPLACE} && (op == REMOVE <==> value.None?)
    ensures Inside(Compose(op, path, Some(suffix), value), path)
  {
    hide Encode;
    assert Compose(op, path, Some(suffix), value) == Compose(op, path + [SLASH] + Encode(suffix), None, value);
  }

  lemma InsideDeeper(patches: seq<Json>, path: cstring, token: cstring)
    requires AllInside(patches, path + [SLASH] + token)
    ensures AllInside(patches, path)
  {
    forall i | 0 <= i < |patches|
      ensures Inside(patches[i], path)
    {
      assert Inside(patches[i], path + [SLASH] + token);
      var op: cstring, rest: cstring, value: Option<Json> :|
        op in {ADD, REMOVE, REPLACE} && (op == REMOVE <==> value.None?)
        && patches[i] == Compose(op, path + [SLASH] + token + [SLASH] + rest, None, value);
      assert path + [SLASH] + token + [SLASH] + rest == path + [SLASH] + (token + [SLASH] + rest);
    }
  }

  lemma InsideJoin(x: seq<Json>, y: seq<Json>, path: cstring)
    requires AllInside(x, path) && AllInside(y, path)
    ensures AllInside(x + y, path)
  {
    hide Inside;
  }

  lemma InsideOne(patch: Json, path: cstring)
    requires Inside(patch, path)
    ensures AllInside([patch], path)
  {
    hide Inside;
  }

  /** The patches of a child. */
  lemma {:induction false} ChildInside(path: cstring, token: cstring, from: Json, to: Json, cs: bool)
    ensures AllInside(CreatePatches(path + [SLASH] + token, from, to, cs), path)
    decreases Size(from), 1
  {
    hide Compose, CreatePatches, Inside, AllInside;
    if Mismatch(from, to) {
      assert CreatePatches(path + [SLASH] + token, from, to, cs) ==
             [Compose(REPLACE, path + [SLASH] + token, None, Some(to))] by {
        MismatchPatches(path + [SLASH] + token, from, to, cs);
      }
      ReplaceInside(path, token, to);
      InsideOne(Compose(REPLACE, path + [SLASH] + token, None, Some(to)), path);
    } else {
      PatchesInside(path + [SLASH] + token, from, to, cs);
      InsideDeeper(CreatePatches(path + [SLASH] + token, from, to, cs), path, token);
    }
  }

  lemma MismatchPatches(path: cstring, from: Json, to: Json, cs: bool)
    requires Mismatch(from, to)
    ensures CreatePatches(path, from, to, cs) == [Compose(REPLACE, path, None, Some(to))]
  {
    hide Compose;
  }

  lemma ReplaceInside(path: cstring, token: cstring, to: Json)
    ensures Inside(Compose(REPLACE, path + [SLASH] + token, None, Some(to)), path)
  {
    hide Compose;
    assert REPLACE in {ADD, REMOVE, REPLACE};
  }

  lemma {:induction false} PatchesInside(path: cstring, from: Json, to: Json, cs: bool)
    requires !Mismatch(from, to)
    ensures AllInside(CreatePatches(path, from, to, cs), path)
    decreases Size(from), 0
  {
    hide Compose, Inside, Sort, ItemPatches, MemberPatches;
    match from {
      case Array(items) => ItemsInside(path, items, to.items, 0, cs);
      case Object(members) =>
        SortedMembersSmaller(members, cs);
        MembersInside(path, Sort(members, NameOf, cs), Sort(to.members, NameOf, cs), cs, MembersSize(members));
      case _ =>
    }
  }

  lemma {:induction false} ItemsInside(path: cstring, from: seq<Json>, to: seq<Json>, i: nat, cs: bool)
    requires i <= |from| && i <= |to|
    ensures AllInside(ItemPatches(path, from, to, i, cs), path)
    decreases ItemsSize(from), 2 + |from| - i
  {
    hide Compose, Inside, AllInside, CreatePatches, Decimal, Removals, Additions;
    if i < |from| && i < |to| {
      ItemSmaller(from, i);
      ChildInside(path, Decimal(i), from[i], to[i], cs);
      ItemsInside(path, from, to, i + 1, cs);
      InsideJoin(CreatePatches(path + [SLASH] + Decimal(i), from[i], to[i], cs), ItemPatches(path, from, to, i + 1, cs),
                 path);
    } else {
      RemovalsInside(path, i, |from| - i);
      AdditionsInside(path, to[i..]);
      InsideJoin(Removals(path, i, |from| - i), Additions(path, to[i..]), path);
    }
  }

  lemma {:induction false} RemovalsInside(path: cstring, i: nat, count: nat)
    ensures AllInside(Removals(path, i, count), path)
    decreases count
  {
    hide Compose, Inside, Decimal;
    if count > 0 {
      ComposeSuffix(REMOVE, path, Decimal(i), None);
      RemovalsInside(path, i, count - 1);
    }
  }

  lemma {:induction false} AdditionsInside(path: cstring, items: seq<Json>)
    ensures AllInside(Additions(path, items), path)
    decreases |items|
  {
    hide Compose, Inside;
    if items != [] {
      ComposeSuffix(ADD, path, [HYPHEN], Some(items[0]));
      AdditionsInside(path, items[1..]);
    }
  }

  lemma {:induction false} MembersInside(path: cstring, from: seq<Member>, to: seq<Member>, cs: bool, bound: nat)
    requires forall i :: 0 <= i < |from| ==> Size(from[i].value) <= bound
    ensures AllInside(MemberPatches(path, from, to, cs, bound), path)
    decreases bound, 2 + |from| + |to|
  {
    hide Compose, Inside, AllInside, CreatePatches, Encode, Compare;
    if from == [] && to == [] {
      NothingInside(path);
    } else {
      var diff := if from == [] then 1 else if to == [] then -1 else Compare(from[0].name, to[0].name, cs);
      var f, t := if diff <= 0 then from[1..] else from, if diff >= 0 then to[1..] else to;
      var first := if diff == 0
          then CreatePatches(path + [SLASH] + Encode(from[0].name), from[0].value, to[0].value, cs)
                   else if diff < 0 then [Compose(REMOVE, path, Some(from[0].name), None)]
                   else [Compose(ADD, path, Some(to[0].name), Some(to[0].value))];
      assert MemberPatches(path, from, to, cs, bound) == first + MemberPatches(path, f, t, cs, bound);
      MembersInside(path, f, t, cs, bound);
      if diff == 0 {
        ChildInside(path, Encode(from[0].name), from[0].value, to[0].value, cs);
      } else if diff < 0 {
        ComposeSuffix(REMOVE, path, from[0].name, None);
        InsideOne(first[0], path);
      } else {
        ComposeSuffix(ADD, path, to[0].name, Some(to[0].value));
        InsideOne(first[0], path);
      }
      InsideJoin(first, MemberPatches(path, f, t, cs, bound), path);
    }
  }

  lemma NothingInside(path: cstring)
    ensures AllInside([], path)
  {}

  // ---- What such a patch changes ----

  /** The same members under the same names, but for the value of the first member of one name. */
  predicate SameBut(was: seq<Member>, cur: seq<Member>, name: cstring, cs: bool) {
    && |cur| == |was|
    && forall i :: 0 <= i < |was| ==>
      cur[i].name == was[i].name && (cur[i] == was[i] || Lookup(was, name, cs) == Some(i))
  }

  lemma {:induction false} SameLookup(was: seq<Member>, cur: seq<Member>, name: cstring, cs: bool)
    requires |was| == |cur| && forall i :: 0 <= i < |was| ==> cur[i].name == was[i].name
    ensures Lookup(cur, name, cs) == Lookup(was, name, cs)
    decreases |was|
  {
    hide SameKey;
    if was != [] {
      assert was[0].name == cur[0].name;
      assert forall i :: 0 <= i < |was| - 1 ==> cur[1..][i].name == was[1..][i].name;
      SameLookup(was[1..], cur[1..], name, cs);
    }
  }

  lemma SameButTwice(a: seq<Member>, b: seq<Member>, c: seq<Member>, name: cstring, cs: bool)
    requires SameBut(a, b, name, cs) && SameBut(b, c, name, cs)
    ensures SameBut(a, c, name, cs)
  {
    SameLookup(a, b, name, cs);
  }

  /** The document after a change inside one member of the object at loc. */
  ghost predicate ChangedInside(doc: Json, doc': Json, loc: Path, name: cstring, cs: bool)
    requires ValidPath(doc, loc) && At(doc, loc).Object?
  {
    exists ms: seq<Member> :: doc' == Put(doc, loc, Object(ms)) && SameBut(At(doc, loc).members, ms, name, cs)
  }

  lemma WalkFirst(j: Json, tokens: seq<cstring>, cs: bool)
    requires tokens != []
    ensures Walk(j, tokens, cs) ==
            match StepInto(j, tokens[0], cs) {
              case None => None
              case Some(i) => Under([i], Walk(Children(j)[i], tokens[1..], cs))
            }
  {
    hide StepInto;
  }

  lemma UnderTwice(a: Path, b: Path, r: Option<Path>)
    ensures Under(a, Under(b, r)) == Under(a + b, r)
  {
    assert r.Some? ==> a + (b + r.value) == a + b + r.value;
  }

  lemma AtFirst(j: Json, i: nat, loc: Path)
    requires i < |Children(j)| && ValidPath(Children(j)[i], loc)
    ensures ValidPath(j, [i] + loc) && At(j, [i] + loc) == At(Children(j)[i], loc)
  {
    assert ([i] + loc)[1..] == loc;
  }

  lemma {:induction false} WalkAppend(j: Json, x: seq<cstring>, y: seq<cstring>, cs: bool)
    ensures Walk(j, x + y, cs) ==
            match Walk(j, x, cs) { case None => None case Some(loc) => Under(loc, Walk(At(j, loc), y, cs)) }
    decreases |x|
  {
    if x == [] {
      assert x + y == y;
      UnderUnder([], 0, Walk(j, y, cs));
    } else {
      hide StepInto, Walk, At;
      assert (x + y)[1..] == x[1..] + y && (x + y)[0] == x[0];
      WalkFirst(j, x, cs);
      WalkFirst(j, x + y, cs);
      var r := StepInto(j, x[0], cs);
      if r.Some? {
        var child := Children(j)[r.value];
        WalkAppend(child, x[1..], y, cs);
        var w := Walk(child, x[1..], cs);
        if w.Some? {
          AtFirst(j, r.value, w.value);
          UnderTwice([r.value], w.value, Walk(At(child, w.value), y, cs));
        }
      }
    }
  }

  lemma {:induction false} PutBelow(j: Json, x: Path, y: Path, v: Json)
    requires ValidPath(j, x) && ValidPath(At(j, x), y)
    ensures ValidPath(j, x + y) && At(j, x + y) == At(At(j, x), y) && Put(j, x + y, v) == Put(j, x, Put(At(j, x), y, v))
    decreases |x|
  {
    if x == [] {
      assert x + y == y;
    } else {
      assert (x + y)[1..] == x[1..] + y;
      PutBelow(Children(j)[x[0]], x[1..], y, v);
    }
  }

  /** Where a path below a member leads: nowhere, or into that member. */
  lemma InsideLeads(doc: Json, pointer: cstring, cs: bool, loc: Path, name: cstring, rest: cstring)
    returns (p: cstring, deep: Option<Path>)
    requires LeadsTo(doc, pointer, cs, loc) && At(doc, loc).Object?
    ensures var path := pointer + [SLASH] + Encode(name) + [SLASH] + rest;
            LastSlash(path).Some? && p == path[..LastSlash(path).value] && Resolve(doc, p, cs) == deep
    ensures deep.Some? ==>
              && Lookup(At(doc, loc).members, name, cs).Some?
              && var k := Lookup(At(doc, loc).members, name, cs).value;
                 |deep.value| > |loc| && deep.value[..|loc| + 1] == loc + [k] && ValidPath(doc, loc + [k])
                 && ValidPath(At(doc, loc + [k]), deep.value[|loc| + 1..])
  {
    hide Encode, StepInto, LastSlash, Lookup, Walk, At, TokensFrom, IsPointer;
    var start := pointer + [SLASH] + Encode(name);
    var path := start + [SLASH] + rest;
    var q := LastSlashBehind(start, rest);
    p := path[..q];
    deep := Resolve(doc, p, cs);
    var more := path[|start|..q];
    assert p == start + more;
    InsideTokens(pointer, name, more);
    var place := Walk(doc, Tokens(pointer) + [Encode(name)], cs);
    WalkAppend(doc, Tokens(pointer) + [Encode(name)], Tokens(more), cs);
    WalkSnoc(doc, Tokens(pointer), Encode(name), cs);
    FirstMatchEncoded(At(doc, loc).members, name, cs);
    ObjectStep(At(doc, loc), Encode(name), cs);
    if deep.Some? {
      var k := Lookup(At(doc, loc).members, name, cs).value;
      assert place == Some(loc + [k]);
      PathSnoc(doc, loc, k, Null);
      var w := Walk(At(doc, loc + [k]), Tokens(more), cs).value;
      assert deep.value == loc + [k] + w;
      assert deep.value[|loc| + 1..] == w && deep.value[..|loc| + 1] == loc + [k];
    }
  }

  lemma InsideTokens(pointer: cstring, name: cstring, more: cstring)
    requires IsPointer(pointer) && IsPointer(more)
    ensures Tokens(pointer + [SLASH] + Encode(name) + more) == Tokens(pointer) + [Encode(name)] + Tokens(more)
  {
    hide Encode, TokensFrom;
    EncodeNoSlash(name);
    TokensSnoc(pointer, Encode(name));
    StartsWithSlash(pointer, Encode(name));
    TokensAppend(pointer + [SLASH] + Encode(name), more, 0);
  }

  lemma ObjectStep(j: Json, token: cstring, cs: bool)
    requires j.Object?
    ensures StepInto(j, token, cs) == FirstMatch(j.members, token, cs)
  {}

  lemma StartsWithSlash(pointer: cstring, token: cstring)
    requires IsPointer(pointer)
    ensures IsPointer(pointer + [SLASH] + token)
  {
    assert (pointer + [SLASH] + token)[0] == if pointer == [] then SLASH else pointer[0];
  }

  lemma LastSlashOnce(path: cstring, last: cchar)
    ensures LastSlash(path + [last]) == if last == SLASH then Some(|path|) else LastSlash(path)
  {
    assert (path + [last])[..|path|] == path;
  }

  /** The last slash stands at the end of `start` or behind it, and what is between is a pointer. */
  lemma {:induction false} LastSlashBehind(start: cstring, rest: cstring) returns (q: nat)
    ensures |start| <= q <= |start| + |rest| && LastSlash(start + [SLASH] + rest) == Some(q)
    ensures IsPointer((start + [SLASH] + rest)[|start|..q])
    decreases |rest|
  {
    hide LastSlash;
    var path := start + [SLASH] + rest;
    if rest == [] {
      q := |start|;
      assert path == start + [SLASH];
      LastSlashOnce(start, SLASH);
    } else {
      var n := |rest| - 1;
      var shorter := start + [SLASH] + rest[..n];
      assert path == shorter + [rest[n]];
      LastSlashOnce(shorter, rest[n]);
      if rest[n] == SLASH {
        q := |shorter|;
        assert path[|start|..q][0] == SLASH;
      } else {
        q := LastSlashBehind(start, rest[..n]);
        assert path[|start|..q] == shorter[|start|..q];
      }
    }
  }

  /** A change at a place inside a member. */
  lemma DeepChange(doc: Json, loc: Path, name: cstring, cs: bool, deep: Path, x: Json)
    requires ValidPath(doc, loc) && At(doc, loc).Object? && ValidPath(doc, deep)
    requires Lookup(At(doc, loc).members, name, cs).Some?
    requires var k := Lookup(At(doc, loc).members, name, cs).value;
             |deep| > |loc| && deep[..|loc| + 1] == loc + [k] && ValidPath(doc, loc + [k])
             && ValidPath(At(doc, loc + [k]), deep[|loc| + 1..])
    ensures ChangedInside(doc, Put(doc, deep, x), loc, name, cs)
  {
    hide Lookup, Put, At, ValidPath;
    var k, y := Lookup(At(doc, loc).members, name, cs).value, deep[|loc| + 1..];
    assert deep == loc + [k] + y;
    PutBelow(doc, loc + [k], y, x);
    var v := Put(At(doc, loc + [k]), y, x);
    PathSnoc(doc, loc, k, v);
    var ms := At(doc, loc).members;
    var ms' := ms[k := ms[k].(value := v)];
    assert ReplaceChild(At(doc, loc), k, v) == Object(ms');
    assert SameBut(ms, ms', name, cs);
  }

  /** Detaching and adding change the document where the path up to its last slash leads. */
  lemma DetachPuts(doc: Json, path: cstring, cs: bool) returns (x: Json)
    requires DetachPath(doc, path, cs).Some?
    ensures LastSlash(path).Some? && Resolve(doc, path[..LastSlash(path).value], cs).Some?
    ensures DetachPath(doc, path, cs).value.doc == Put(doc, Resolve(doc, path[..LastSlash(path).value], cs).value, x)
  {
    hide LastSlash, DecodeInplace, DecodeIndexText, Resolve, Lookup, Put, At;
    var k := LastSlash(path).value;
    var child := DecodeInplace(path[k + 1..]);
    match At(doc, Resolve(doc, path[..k], cs).value) {
      case Array(items) => x := Array(Without(items, DecodeIndexText(child).value));
      case Object(members) => x := Object(Without(members, Lookup(members, child, false).value));
    }
  }

  lemma AddPuts(doc: Json, path: cstring, value: Json, cs: bool) returns (x: Json)
    requires AddAtPath(doc, path, value, cs).1 == 0
    ensures LastSlash(path).Some? && Resolve(doc, path[..LastSlash(path).value], cs).Some?
    ensures AddAtPath(doc, path, value, cs).0 == Put(doc, Resolve(doc, path[..LastSlash(path).value], cs).value, x)
  {
    hide LastSlash, DecodeInplace, DecodeIndexText, Resolve, DeleteMember, Put, At;
    var k := LastSlash(path).value;
    var child := DecodeInplace(path[k + 1..]);
    match At(doc, Resolve(doc, path[..k], cs).value) {
      case Array(items) =>
        if child == [HYPHEN] {
          x := Array(items + [value]);
        } else {
          var i := DecodeIndexText(child).value;
          x := Array(items[..i] + [value] + items[i..]);
        }
      case Object(members) => x := Object(DeleteMember(members, child, cs) + [Member(child, value)]);
    }
  }

  lemma DetachInside(doc: Json, pointer: cstring, cs: bool, loc: Path, name: cstring, rest: cstring)
    requires LeadsTo(doc, pointer, cs, loc) && At(doc, loc).Object?
    ensures var r := DetachPath(doc, pointer + [SLASH] + Encode(name) + [SLASH] + rest, cs);
            r.Some? ==> ChangedInside(doc, r.value.doc, loc, name, cs)
  {
    hide Encode, LastSlash, DetachPath, Lookup, ChangedInside, Resolve, Put, At;
    var path := pointer + [SLASH] + Encode(name) + [SLASH] + rest;
    if DetachPath(doc, path, cs).Some? {
      var p, deep := InsideLeads(doc, pointer, cs, loc, name, rest);
      var x := DetachPuts(doc, path, cs);
      DeepChange(doc, loc, name, cs, deep.value, x);
    }
  }

  lemma AddInside(doc: Json, pointer: cstring, cs: bool, loc: Path, name: cstring, rest: cstring, value: Json)
    requires LeadsTo(doc, pointer, cs, loc) && At(doc, loc).Object?
    ensures var (doc', status) := AddAtPath(doc, pointer + [SLASH] + Encode(name) + [SLASH] + rest, value, cs);
            status == 0 ==> ChangedInside(doc, doc', loc, name, cs)
  {
    hide Encode, LastSlash, AddAtPath, Lookup, ChangedInside, Resolve, Put, At;
    var path := pointer + [SLASH] + Encode(name) + [SLASH] + rest;
    if AddAtPath(doc, path, value, cs).1 == 0 {
      var p, deep := InsideLeads(doc, pointer, cs, loc, name, rest);
      var x := AddPuts(doc, path, value, cs);
      DeepChange(doc, loc, name, cs, deep.value, x);
    }
  }

  lemma ChangeTwice(doc: Json, doc': Json, doc'': Json, loc: Path, name: cstring, cs: bool)
    requires ValidPath(doc, loc) && At(doc, loc).Object? && ChangedInside(doc, doc', loc, name, cs)
    requires ValidPath(doc', loc) && At(doc', loc).Object? && ChangedInside(doc', doc'', loc, name, cs)
    ensures ChangedInside(doc, doc'', loc, name, cs)
  {
    hide SameBut, Put, At, ValidPath;
    var ms: seq<Member> :| doc' == Put(doc, loc, Object(ms)) && SameBut(At(doc, loc).members, ms, name, cs);
    PutAt(doc, loc, Object(ms));
    var ms': seq<Member> :| doc'' == Put(doc', loc, Object(ms')) && SameBut(At(doc', loc).members, ms', name, cs);
    PutPut(doc, loc, Object(ms), Object(ms'));
    SameButTwice(At(doc, loc).members, ms, ms', name, cs);
  }

  lemma StillLeads(doc: Json, doc': Json, pointer: cstring, loc: Path, name: cstring, cs: bool)
    requires LeadsTo(doc, pointer, cs, loc) && At(doc, loc).Object? && ChangedInside(doc, doc', loc, name, cs)
    ensures LeadsTo(doc', pointer, cs, loc) && At(doc', loc).Object?
  {
    hide SameBut;
    var ms: seq<Member> :| doc' == Put(doc, loc, Object(ms)) && SameBut(At(doc, loc).members, ms, name, cs);
    LeadsToAfterPut(doc, pointer, cs, loc, Object(ms));
  }

  lemma NoChange(doc: Json, loc: Path, name: cstring, cs: bool)
    requires ValidPath(doc, loc) && At(doc, loc).Object?
    ensures ChangedInside(doc, doc, loc, name, cs)
  {
    PutSame(doc, loc);
    assert SameBut(At(doc, loc).members, At(doc, loc).members, name, cs);
  }

  lemma EditInside(doc: Json, patch: Json, pointer: cstring, cs: bool, loc: Path, name: cstring)
    requires LeadsTo(doc, pointer, cs, loc) && At(doc, loc).Object? && Inside(patch, pointer + [SLASH] + Encode(name))
    ensures var (doc', status) := Edit(doc, patch, cs); status == 0 ==> ChangedInside(doc, doc', loc, name, cs)
  {
    hide Encode, Compose, AddAtPath, DetachPath, Edit, ChangedInside, Resolve;
    var op: cstring, rest: cstring, value: Option<Json> :|
      op in {ADD, REMOVE, REPLACE} && (op == REMOVE <==> value.None?)
      && patch == Compose(op, pointer + [SLASH] + Encode(name) + [SLASH] + rest, None, value);
    var path := pointer + [SLASH] + Encode(name) + [SLASH] + rest;
    ApplyComposed(doc, op, path, None, value, cs);
    DetachInside(doc, pointer, cs, loc, name, rest);
    if op == ADD {
      AddInside(doc, pointer, cs, loc, name, rest, value.value);
    } else if op == REPLACE && DetachPath(doc, path, cs).Some? {
      var doc' := DetachPath(doc, path, cs).value.doc;
      StillLeads(doc, doc', pointer, loc, name, cs);
      AddInside(doc', pointer, cs, loc, name, rest, value.value);
      if AddAtPath(doc', path, value.value, cs).1 == 0 {
        ChangeTwice(doc, doc', AddAtPath(doc', path, value.value, cs).0, loc, name, cs);
      }
    }
  }

  /** Patches inside a member change that member only. */
  lemma {:induction false} EditAllInside(doc: Json, patches: seq<Json>, pointer: cstring, cs: bool, loc: Path,
                                         name: cstring)
    requires LeadsTo(doc, pointer, cs, loc) && At(doc, loc).Object? &&
             AllInside(patches, pointer + [SLASH] + Encode(name))
    ensures var (doc', status) := EditAll(doc, patches, cs); status == 0 ==> ChangedInside(doc, doc', loc, name, cs)
    decreases |patches|
  {
    hide Edit, Encode, Inside, ChangedInside, Resolve;
    if patches == [] {
      NoChange(doc, loc, name, cs);
    } else {
      EditInside(doc, patches[0], pointer, cs, loc, name);
      var (doc', status) := Edit(doc, patches[0], cs);
      if status == 0 {
        StillLeads(doc, doc', pointer, loc, name, cs);
        EditAllInside(doc', patches[1..], pointer, cs, loc, name);
        if EditAll(doc', patches[1..], cs).1 == 0 {
          ChangeTwice(doc, doc', EditAll(doc', patches[1..], cs).0, loc, name, cs);
        }
      }
    }
  }

  // ---- The names paths end in ----

  /** A member that is removed, or replaced as a whole: nothing of its name matches it in kind. */
  predicate Changed(m: Member, to: seq<Member>, cs: bool) {
    forall j :: 0 <= j < |to| && SameKey(m.name, to[j].name, cs) ==> Mismatch(m.value, to[j].value)
  }

  /** The names the patches from one object to another put at the end of a path: those of members that
      are removed, replaced as a whole, or added. */
  ghost function Ends(from: seq<Member>, to: seq<Member>, cs: bool): set<cstring> {
    (set i | 0 <= i < |from| && Changed(from[i], to, cs) :: from[i].name)
    + (set j | 0 <= j < |to| && !HasKey(to[j].name, from, NameOf, cs) :: to[j].name)
  }

  lemma Above(name: cstring, s: seq<Member>, cs: bool)
    requires Ascending(s, NameOf, cs) && (s != [] ==> Compare(name, s[0].name, cs) < 0)
    ensures forall i :: 0 <= i < |s| ==>
              Compare(name, s[i].name, cs) < 0 && !SameKey(name, s[i].name, cs) && !SameKey(s[i].name, name, cs)
  {
    hide Compare, SameKey;
    forall i | 0 <= i < |s|
      ensures Compare(name, s[i].name, cs) < 0 && !SameKey(name, s[i].name, cs) && !SameKey(s[i].name, name, cs)
    {
      if i > 0 {
        AscendingOrdered(s, NameOf, cs, 0, i);
        CompareOrder(name, s[0].name, s[i].name, cs);
      }
      CompareOrder(name, s[i].name, name, cs);
      SameKeySymmetric(name, s[i].name, cs);
    }
  }

  /** What is left of two ascending lists after one step of the walk. */
  function Rest(from: seq<Member>, to: seq<Member>, cs: bool): (seq<Member>, seq<Member>)
    requires from != [] || to != []
  {
    var diff := if from == [] then 1 else if to == [] then -1 else Compare(from[0].name, to[0].name, cs);
    (if diff <= 0 then from[1..] else from, if diff >= 0 then to[1..] else to)
  }

  /** Names consumed by a step are smaller than all that is left. */
  lemma StepApart(from: seq<Member>, to: seq<Member>, cs: bool)
    requires (from != [] || to != []) && Ascending(from, NameOf, cs) && Ascending(to, NameOf, cs)
    ensures var (f, t) := Rest(from, to, cs);
            && Ascending(f, NameOf, cs) && Ascending(t, NameOf, cs)
            && (f != from ==> forall j :: 0 <= j < |t| ==> !SameKey(t[j].name, from[0].name, cs))
            && (t != to ==> forall i :: 0 <= i < |f| ==> !SameKey(f[i].name, to[0].name, cs))
            && (f == from ==> forall i :: 0 <= i < |from| ==> !SameKey(to[0].name, from[i].name, cs))
            && (t == to ==> forall j :: 0 <= j < |to| ==> !SameKey(from[0].name, to[j].name, cs))
  {
    hide Compare, SameKey, Ascending;
    var (f, t) := Rest(from, to, cs);
    if from != [] { AscendingRest(from, cs); }
    if to != [] { AscendingRest(to, cs); }
    if from != [] && to != [] {
      CompareOrder(from[0].name, to[0].name, from[0].name, cs);
      if Compare(from[0].name, to[0].name, cs) == 0 {
        if |from| > 1 { CompareThrough(to[0].name, from[0].name, from[1].name, cs); }
        if |to| > 1 { CompareThrough(from[0].name, to[0].name, to[1].name, cs); }
        Above(to[0].name, from[1..], cs);
        Above(from[0].name, to[1..], cs);
      } else if Compare(from[0].name, to[0].name, cs) < 0 {
        Above(from[0].name, to, cs);
      } else {
        Above(to[0].name, from, cs);
      }
    }
  }

  lemma AscendingRest(s: seq<Member>, cs: bool)
    requires s != [] && Ascending(s, NameOf, cs)
    ensures Ascending(s[1..], NameOf, cs) && (|s| > 1 ==> Compare(s[0].name, s[1].name, cs) < 0)
  {
    hide Compare;
    assert |s| > 1 ==> Compare(NameOf(s[0]), NameOf(s[0 + 1]), cs) < 0;
  }

  lemma CompareThrough(a: cstring, b: cstring, c: cstring, cs: bool)
    requires Compare(a, b, cs) <= 0 && Compare(b, c, cs) < 0
    ensures Compare(a, c, cs) < 0
  {
    hide Compare;
    CompareOrder(a, b, c, cs);
  }

  lemma KeyOfRest(key: cstring, s: seq<Member>, cs: bool)
    requires s != [] && !SameKey(key, s[0].name, cs) && HasKey(key, s, NameOf, cs)
    ensures HasKey(key, s[1..], NameOf, cs)
  {
    hide SameKey;
    var i :| 0 <= i < |s| && SameKey(key, NameOf(s[i]), cs);
    assert s[1..][i - 1] == s[i];
  }

  lemma ChangedByRest(m: Member, s: seq<Member>, cs: bool)
    requires s != [] && !SameKey(m.name, s[0].name, cs) && Changed(m, s[1..], cs)
    ensures Changed(m, s, cs)
  {
    hide SameKey, Mismatch;
    forall j | 0 <= j < |s| && SameKey(m.name, s[j].name, cs)
      ensures Mismatch(m.value, s[j].value)
    {
      assert s[1..][j - 1] == s[j];
    }
  }

  lemma EndsOfFrom(from: seq<Member>, to: seq<Member>, cs: bool, i: nat)
    requires i < |from| && Changed(from[i], to, cs)
    ensures from[i].name in Ends(from, to, cs)
  {
    hide SameKey, Mismatch;
  }

  lemma EndsOfTo(from: seq<Member>, to: seq<Member>, cs: bool, j: nat)
    requires j < |to| && !HasKey(to[j].name, from, NameOf, cs)
    ensures to[j].name in Ends(from, to, cs)
  {
    hide SameKey, Mismatch;
  }

  lemma EndsCases(from: seq<Member>, to: seq<Member>, cs: bool, n: cstring) returns (own: bool, i: nat)
    requires n in Ends(from, to, cs)
    ensures own ==> i < |from| && Changed(from[i], to, cs) && n == from[i].name
    ensures !own ==> i < |to| && !HasKey(to[i].name, from, NameOf, cs) && n == to[i].name
  {
    hide SameKey, Mismatch, Changed, HasKey;
    if k :| 0 <= k < |from| && Changed(from[k], to, cs) && n == from[k].name {
      own, i := true, k;
    } else {
      var k :| 0 <= k < |to| && !HasKey(to[k].name, from, NameOf, cs) && n == to[k].name;
      own, i := false, k;
    }
  }

  /** A step of the walk leaves no other names at the end of a path. */
  lemma EndsShrink(from: seq<Member>, to: seq<Member>, cs: bool)
    requires (from != [] || to != []) && Ascending(from, NameOf, cs) && Ascending(to, NameOf, cs)
    ensures var (f, t) := Rest(from, to, cs); Ends(f, t, cs) <= Ends(from, to, cs)
  {
    hide Compare, SameKey, Ascending, Mismatch, Changed, HasKey, Ends;
    var (f, t) := Rest(from, to, cs);
    StepApart(from, to, cs);
    forall n | n in Ends(f, t, cs)
      ensures n in Ends(from, to, cs)
    {
      var own, i := EndsCases(f, t, cs, n);
      if own {
        var i' := if f == from then i else i + 1;
        assert from[i'] == f[i];
        if t != to { ChangedByRest(f[i], to, cs); }
        EndsOfFrom(from, to, cs, i');
      } else {
        var j := if t == to then i else i + 1;
        assert to[j] == t[i];
        if f != from && HasKey(t[i].name, from, NameOf, cs) { KeyOfRest(t[i].name, from, cs); }
        EndsOfTo(from, to, cs, j);
      }
    }
  }

  /** A step of the walk uses the names at the end of a path it should. */
  lemma EndsStep(from: seq<Member>, to: seq<Member>, cs: bool)
    requires (from != [] || to != []) && Ascending(from, NameOf, cs) && Ascending(to, NameOf, cs)
    ensures var (f, t) := Rest(from, to, cs);
            && (f == from ==> to[0].name in Ends(from, to, cs))
            && (t == to ==> from[0].name in Ends(from, to, cs))
            && (f != from && t != to && Mismatch(from[0].value, to[0].value) ==> from[0].name in Ends(from, to, cs))
  {
    hide Compare, SameKey, Ascending, Mismatch, Ends;
    var (f, t) := Rest(from, to, cs);
    StepApart(from, to, cs);
    if f == from {
      EndsOfTo(from, to, cs, 0);
    } else if t == to {
      EndsOfFrom(from, to, cs, 0);
    } else if Mismatch(from[0].value, to[0].value) {
      forall j | 0 <= j < |to| && SameKey(from[0].name, to[j].name, cs)
        ensures Mismatch(from[0].value, to[j].value)
      {
        if j > 0 {
          assert t[j - 1] == to[j];
          SameKeySymmetric(from[0].name, to[j].name, cs);
        }
      }
      EndsOfFrom(from, to, cs, 0);
    }
  }

  // ---- What misled patches leave untouched ----

  /** A member that stays, a name that stays out, or a name that is lost and not added again. */
  datatype Mark = Stays(m: Member) | StaysOut(name: cstring) | Lost(name: cstring)

  predicate NoKey(cur: seq<Member>, name: cstring, cs: bool) {
    forall k :: 0 <= k < |cur| ==> !SameKey(cur[k].name, name, cs)
  }

  ghost predicate Marked(mark: Mark, cur: seq<Member>, cs: bool) {
    match mark
    case Stays(m) => m in cur
    case StaysOut(name) => NoKey(cur, name, cs)
    case Lost(name) => NoKey(cur, name, cs)
  }

  /** Decoding leads the name elsewhere, or it is another name. */
  predicate Misses(mark: Mark, n: cstring, cs: bool) {
    match mark
    case Stays(m) => Fold(Decoded(n)) != Fold(m.name)
    case StaysOut(name) => Fold(Decoded(n)) != Fold(name)
    case Lost(name) => Decoded(n) == n && !SameKey(n, name, cs)
  }

  /** No path ends at the mark, and none leads through it. */
  ghost predicate AllMiss(mark: Mark, from: seq<Member>, to: seq<Member>, cs: bool) {
    && (forall n :: n in Ends(from, to, cs) ==> Misses(mark, n, cs))
    && (mark.Stays? ==> forall i :: 0 <= i < |from| && !Changed(from[i], to, cs) ==>
          !SameKey(from[i].name, mark.m.name, cs))
  }

  lemma RestMisses(mark: Mark, from: seq<Member>, to: seq<Member>, cs: bool)
    requires (from != [] || to != []) && Ascending(from, NameOf, cs) && Ascending(to, NameOf, cs)
    requires AllMiss(mark, from, to, cs)
    ensures var (f, t) := Rest(from, to, cs); AllMiss(mark, f, t, cs)
  {
    hide SameKey, Ascending, Compare, Ends, Misses, Mismatch;
    var (f, t) := Rest(from, to, cs);
    EndsShrink(from, to, cs);
    if mark.Stays? {
      forall i | 0 <= i < |f| && !Changed(f[i], t, cs)
        ensures !SameKey(f[i].name, mark.m.name, cs)
      {
        var i' := if f == from then i else i + 1;
        assert from[i'] == f[i];
        if Changed(from[i'], to, cs) {
          forall j | 0 <= j < |t| && SameKey(f[i].name, t[j].name, cs)
            ensures Mismatch(f[i].value, t[j].value)
          {
            assert t[j] == to[if t == to then j else j + 1];
          }
        }
      }
    }
  }

  lemma FoldedKeys(a: cstring, b: cstring, cs: bool)
    requires SameKey(a, b, cs)
    ensures Fold(a) == Fold(b)
  {}

  /** Detaching a member, without regard to case, or deleting one of the mode's equal names. */
  lemma RemoveKeepsMark(mark: Mark, cur: seq<Member>, n: cstring, cs: bool, mode: bool)
    requires Marked(mark, cur, cs) && Misses(mark, n, cs)
    ensures Marked(mark, DeleteMember(cur, Decoded(n), mode), cs)
  {
    hide SameKey, Fold, Decoded, Distinct;
    var name := Decoded(n);
    LookupFirst(cur, name, mode);
    var r := Lookup(cur, name, mode);
    if r.Some? {
      FoldedKeys(name, cur[r.value].name, mode);
      var rest := Without(cur, r.value);
      match mark {
        case Stays(m) =>
          var i :| 0 <= i < |cur| && cur[i] == m;
          assert rest[if i < r.value then i else i - 1] == m;
        case StaysOut(out) => NoKeyWithout(cur, r.value, out, cs);
        case Lost(out) => NoKeyWithout(cur, r.value, out, cs);
      }
    }
  }

  lemma NoKeyWithout(cur: seq<Member>, r: nat, name: cstring, cs: bool)
    requires r < |cur| && NoKey(cur, name, cs)
    ensures NoKey(Without(cur, r), name, cs)
  {
    hide SameKey;
    var rest := Without(cur, r);
    assert forall k :: 0 <= k < |rest| ==> rest[k] == cur[if k < r then k else k + 1];
  }

  lemma AddKeepsMark(mark: Mark, cur: seq<Member>, n: cstring, value: Json, cs: bool)
    requires Marked(mark, cur, cs) && Misses(mark, n, cs)
    ensures Marked(mark, cur + [Member(Decoded(n), value)], cs)
  {
    hide Key, Fold, Decoded;
    var more := cur + [Member(Decoded(n), value)];
    match mark {
      case Stays(m) =>
        var i :| 0 <= i < |cur| && cur[i] == m;
        assert more[i] == m;
      case StaysOut(out) =>
        if SameKey(Decoded(n), out, cs) { FoldedKeys(Decoded(n), out, cs); }
      case Lost(_) =>
    }
  }

  lemma InsideKeepsMark(mark: Mark, cur: seq<Member>, ms: seq<Member>, n: cstring, cs: bool)
    requires Marked(mark, cur, cs) && SameBut(cur, ms, n, cs)
    requires mark.Stays? ==> !SameKey(n, mark.m.name, cs)
    ensures Marked(mark, ms, cs)
  {
    hide Key;
    LookupFirst(cur, n, cs);
    match mark {
      case Stays(m) =>
        var i :| 0 <= i < |cur| && cur[i] == m;
        assert ms[i] == cur[i];
      case _ =>
    }
  }

  /** The document after changes to the object at loc that leave the mark alone. */
  ghost predicate KeptMark(doc: Json, doc': Json, loc: Path, mark: Mark, cs: bool)
    requires ValidPath(doc, loc)
  {
    exists ms: seq<Member> :: doc' == Put(doc, loc, Object(ms)) && Marked(mark, ms, cs)
  }

  lemma RemoveKeeps(doc: Json, pointer: cstring, cs: bool, loc: Path, n: cstring, mark: Mark)
    requires LeadsTo(doc, pointer, cs, loc) && At(doc, loc).Object?
    requires Marked(mark, At(doc, loc).members, cs) && Misses(mark, n, cs)
    ensures var r := DetachPath(doc, pointer + [SLASH] + Encode(n), cs);
            r.Some? ==> exists ms: seq<Member> :: r.value.doc == Put(doc, loc, Object(ms)) && Marked(mark, ms, cs)
  {
    hide Encode, Decoded, DetachPath, Lookup, Marked, Misses, Put, At, Resolve;
    DetachNamed(doc, pointer, cs, loc, n);
    RemoveKeepsMark(mark, At(doc, loc).members, n, cs, false);
  }

  lemma AddKeeps(doc: Json, pointer: cstring, cs: bool, loc: Path, n: cstring, value: Json, mark: Mark)
    requires LeadsTo(doc, pointer, cs, loc) && At(doc, loc).Object?
    requires Marked(mark, At(doc, loc).members, cs) && Misses(mark, n, cs)
    ensures var (doc', status) := AddAtPath(doc, pointer + [SLASH] + Encode(n), value, cs);
            exists ms: seq<Member> :: doc' == Put(doc, loc, Object(ms)) && Marked(mark, ms, cs)
  {
    hide Encode, Decoded, AddAtPath, DeleteMember, Marked, Misses, Put, At, Resolve;
    AddNamed(doc, pointer, cs, loc, n, value);
    RemoveKeepsMark(mark, At(doc, loc).members, n, cs, cs);
    AddKeepsMark(mark, DeleteMember(At(doc, loc).members, Decoded(n), cs), n, value, cs);
  }

  /** One patch whose path ends in a name that misses the mark. */
  lemma EditKeeps(doc: Json, op: cstring, pointer: cstring, cs: bool, loc: Path, n: cstring, value: Option<Json>,
                  mark: Mark)
    requires LeadsTo(doc, pointer, cs, loc) && At(doc, loc).Object?
    requires op in {ADD, REMOVE, REPLACE} && (op == REMOVE <==> value.None?)
    requires Marked(mark, At(doc, loc).members, cs) && Misses(mark, n, cs)
    ensures var (doc', status) := Edit(doc, Compose(op, pointer + [SLASH] + Encode(n), None, value), cs);
            status == 0 ==> KeptMark(doc, doc', loc, mark, cs)
  {
    hide Encode, Compose, AddAtPath, DetachPath, Edit, Marked, Misses, Put, At, Resolve;
    var path := pointer + [SLASH] + Encode(n);
    ApplyComposed(doc, op, path, None, value, cs);
    RemoveKeeps(doc, pointer, cs, loc, n, mark);
    if op == ADD {
      AddKeeps(doc, pointer, cs, loc, n, value.value, mark);
    } else if op == REPLACE && DetachPath(doc, path, cs).Some? {
      var doc' := DetachPath(doc, path, cs).value.doc;
      var ms: seq<Member> :| doc' == Put(doc, loc, Object(ms)) && Marked(mark, ms, cs);
      LeadsToAfterPut(doc, pointer, cs, loc, Object(ms));
      AddKeeps(doc', pointer, cs, loc, n, value.value, mark);
      var ms': seq<Member> :| AddAtPath(doc', path, value.value, cs).0 == Put(doc', loc, Object(ms')) &&
          Marked(mark, ms', cs);
      PutPut(doc, loc, Object(ms), Object(ms'));
    }
  }

  lemma {:induction false} EditAllSplit(doc: Json, x: seq<Json>, y: seq<Json>, cs: bool)
    ensures var (doc', status) := EditAll(doc, x, cs);
            EditAll(doc, x + y, cs) == if status == 0 then EditAll(doc', y, cs) else (doc', status)
    decreases |x|
  {
    hide Edit;
    if x == [] {
      assert x + y == y;
    } else {
      assert (x + y)[1..] == x[1..] + y;
      EditAllSplit(Edit(doc, x[0], cs).0, x[1..], y, cs);
    }
  }

  lemma EditAllSingle(doc: Json, patch: Json, cs: bool)
    ensures EditAll(doc, [patch], cs) == Edit(doc, patch, cs)
  {
    hide Edit;
    assert [patch][1..] == [];
  }

  /** The patches of one step of the walk. */
  function StepPatches(path: cstring, from: seq<Member>, to: seq<Member>, cs: bool): seq<Json>
    requires from != [] || to != []
  {
    var diff := if from == [] then 1 else if to == [] then -1 else Compare(from[0].name, to[0].name, cs);
    if diff == 0 then CreatePatches(path + [SLASH] + Encode(from[0].name), from[0].value, to[0].value, cs)
    else if diff < 0 then [Compose(REMOVE, path, Some(from[0].name), None)]
    else [Compose(ADD, path, Some(to[0].name), Some(to[0].value))]
  }

  lemma MemberPatchesStep(path: cstring, from: seq<Member>, to: seq<Member>, cs: bool, bound: nat)
    requires (from != [] || to != []) && forall i :: 0 <= i < |from| ==> Size(from[i].value) <= bound
    ensures var (f, t) := Rest(from, to, cs);
            MemberPatches(path, from, to, cs, bound) ==
            StepPatches(path, from, to, cs) + MemberPatches(path, f, t, cs, bound)
  {
    hide Compose, Encode, Compare, CreatePatches;
  }

  lemma ComposeNone(op: cstring, path: cstring, suffix: cstring, value: Option<Json>)
    ensures Compose(op, path, Some(suffix), value) == Compose(op, path + [SLASH] + Encode(suffix), None, value)
  {
    hide Encode;
  }

  lemma StepKeeps(doc: Json, pointer: cstring, cs: bool, loc: Path, from: seq<Member>, to: seq<Member>, mark: Mark)
    requires LeadsTo(doc, pointer, cs, loc) && At(doc, loc).Object? && (from != [] || to != [])
    requires Ascending(from, NameOf, cs) && Ascending(to, NameOf, cs) && AllMiss(mark, from, to, cs)
    requires Marked(mark, At(doc, loc).members, cs)
    ensures var (doc', status) := EditAll(doc, StepPatches(pointer, from, to, cs), cs);
            status == 0 ==> KeptMark(doc, doc', loc, mark, cs)
  {
    hide Encode, Compose, Edit, EditAll, Marked, Misses, Put, At, Resolve, Compare, Ascending, Ends, Key;
    hide CreatePatches, Mismatch, Fold;
    EndsStep(from, to, cs);
    var diff := if from == [] then 1 else if to == [] then -1 else Compare(from[0].name, to[0].name, cs);
    if diff == 0 {
      var n, v, w := from[0].name, from[0].value, to[0].value;
      var path := pointer + [SLASH] + Encode(n);
      CompareOrder(n, to[0].name, n, cs);
      if Mismatch(v, w) {
        MismatchPatches(path, v, w, cs);
        EditAllSingle(doc, Compose(REPLACE, path, None, Some(w)), cs);
        EditKeeps(doc, REPLACE, pointer, cs, loc, n, Some(w), mark);
      } else {
        NotChanged(from[0], to, 0, cs);
        PatchesInside(path, v, w, cs);
        EditAllInside(doc, CreatePatches(path, v, w, cs), pointer, cs, loc, n);
        var (doc', status) := EditAll(doc, CreatePatches(path, v, w, cs), cs);
        if status == 0 {
          var ms: seq<Member> :| doc' == Put(doc, loc, Object(ms)) && SameBut(At(doc, loc).members, ms, n, cs);
          InsideKeepsMark(mark, At(doc, loc).members, ms, n, cs);
        }
      }
    } else if diff < 0 {
      ComposeNone(REMOVE, pointer, from[0].name, None);
      EditAllSingle(doc, Compose(REMOVE, pointer, Some(from[0].name), None), cs);
      EditKeeps(doc, REMOVE, pointer, cs, loc, from[0].name, None, mark);
    } else {
      ComposeNone(ADD, pointer, to[0].name, Some(to[0].value));
      EditAllSingle(doc, Compose(ADD, pointer, Some(to[0].name), Some(to[0].value)), cs);
      EditKeeps(doc, ADD, pointer, cs, loc, to[0].name, Some(to[0].value), mark);
    }
  }

  lemma NotChanged(m: Member, to: seq<Member>, j: nat, cs: bool)
    requires j < |to| && SameKey(m.name, to[j].name, cs) && !Mismatch(m.value, to[j].value)
    ensures !Changed(m, to, cs)
  {}

  lemma KeptOn(doc: Json, doc': Json, pointer: cstring, cs: bool, loc: Path, mark: Mark)
    requires LeadsTo(doc, pointer, cs, loc) && KeptMark(doc, doc', loc, mark, cs)
    ensures LeadsTo(doc', pointer, cs, loc) && At(doc', loc).Object? && Marked(mark, At(doc', loc).members, cs)
  {
    hide Marked, Resolve, Put, At;
    var ms: seq<Member> :| doc' == Put(doc, loc, Object(ms)) && Marked(mark, ms, cs);
    LeadsToAfterPut(doc, pointer, cs, loc, Object(ms));
  }

  lemma KeptTwice(doc: Json, doc': Json, doc'': Json, loc: Path, mark: Mark, cs: bool)
    requires ValidPath(doc, loc) && KeptMark(doc, doc', loc, mark, cs)
    requires ValidPath(doc', loc) && KeptMark(doc', doc'', loc, mark, cs)
    ensures KeptMark(doc, doc'', loc, mark, cs)
  {
    hide Marked, Put;
    var ms: seq<Member> :| doc' == Put(doc, loc, Object(ms)) && Marked(mark, ms, cs);
    var ms': seq<Member> :| doc'' == Put(doc', loc, Object(ms')) && Marked(mark, ms', cs);
    PutPut(doc, loc, Object(ms), Object(ms'));
  }

  lemma KeptStart(doc: Json, loc: Path, mark: Mark, cs: bool)
    requires ValidPath(doc, loc) && At(doc, loc).Object? && Marked(mark, At(doc, loc).members, cs)
    ensures KeptMark(doc, doc, loc, mark, cs)
  {
    hide Marked, Put, At;
    PutSame(doc, loc);
    assert doc == Put(doc, loc, Object(At(doc, loc).members));
  }

  /** The patches of two objects, applied while every path misses the mark. */
  lemma {:induction false} RunKeeps(doc: Json, pointer: cstring, cs: bool, loc: Path, from: seq<Member>,
                                    to: seq<Member>,
                                    bound: nat, mark: Mark)
    requires LeadsTo(doc, pointer, cs, loc) && At(doc, loc).Object?
    requires Ascending(from, NameOf, cs) && Ascending(to, NameOf, cs) && AllMiss(mark, from, to, cs)
    requires forall i :: 0 <= i < |from| ==> Size(from[i].value) <= bound
    requires Marked(mark, At(doc, loc).members, cs)
    ensures var (doc', status) := EditAll(doc, MemberPatches(pointer, from, to, cs, bound), cs);
            status == 0 ==> KeptMark(doc, doc', loc, mark, cs)
    decreases |from| + |to|
  {
    hide Encode, Compose, Edit, Marked, KeptMark, Put, At, Resolve, Compare, Ascending, CreatePatches, AllMiss;
    hide StepPatches, MemberPatches;
    if from == [] && to == [] {
      NoMemberPatches(pointer, cs, bound);
      KeptStart(doc, loc, mark, cs);
    } else {
      var (f, t) := Rest(from, to, cs);
      MemberPatchesStep(pointer, from, to, cs, bound);
      StepKeeps(doc, pointer, cs, loc, from, to, mark);
      var first := StepPatches(pointer, from, to, cs);
      EditAllSplit(doc, first, MemberPatches(pointer, f, t, cs, bound), cs);
      var (doc', status) := EditAll(doc, first, cs);
      if status == 0 {
        KeptOn(doc, doc', pointer, cs, loc, mark);
        RestMisses(mark, from, to, cs);
        StepApart(from, to, cs);
        RunKeeps(doc', pointer, cs, loc, f, t, bound, mark);
        var (doc'', status') := EditAll(doc', MemberPatches(pointer, f, t, cs, bound), cs);
        if status' == 0 { KeptTwice(doc, doc', doc'', loc, mark, cs); }
      }
    }
  }

  lemma NoMemberPatches(path: cstring, cs: bool, bound: nat)
    ensures MemberPatches(path, [], [], cs, bound) == []
  {}

  // ---- Some name is always missed ----

  /** Among the names that do not survive there is one that settles first. */
  lemma {:induction false} SettlesFirst(names: set<cstring>, n: cstring) returns (a: cstring)
    requires n in names && !DecodeSafe(n)
    ensures a in names && !DecodeSafe(a)
    ensures forall x :: x in names && !DecodeSafe(x) ==> Unstable(Fold(a)) <= Unstable(Fold(x))
    decreases |names|
  {
    hide DecodeSafe, Unstable, Fold;
    if x :| x in names && !DecodeSafe(x) && Unstable(Fold(x)) < Unstable(Fold(n)) {
      a := SettlesFirst(names - {n}, x);
    } else {
      a := n;
    }
  }

  /** No name decodes to one that settles first. */
  lemma MissesFirst(a: cstring, x: cstring)
    requires !DecodeSafe(a) && (!DecodeSafe(x) ==> Unstable(Fold(a)) <= Unstable(Fold(x)))
    ensures Fold(Decoded(x)) != Fold(a)
  {
    hide DecodeSafe, Unstable, Fold, DecodeFrom, Encode;
    SafeFold(a);
    SafeFold(x);
    if DecodeSafe(x) {
      DecodeUndoesEncodeIff(x);
    } else {
      DecodedFold(x);
      DecodingAdvances(Fold(x));
    }
  }

  lemma MismatchDiffers(a: Json, b: Json, cs: bool)
    requires Mismatch(a, b)
    ensures !Equal(a, b, cs)
  {}

  /** When a path ends in a name that does not survive, something stays as it was that should not. */
  lemma ChooseMark(from: seq<Member>, to: seq<Member>, cs: bool, n: cstring) returns (mark: Mark)
    requires Distinct(from, NameOf, cs) && n in Ends(from, to, cs) && !DecodeSafe(n)
    ensures AllMiss(mark, from, to, cs) && Marked(mark, from, cs)
    ensures forall ms: seq<Member> :: Marked(mark, ms, cs) ==> !Equal(Object(ms), Object(to), cs)
  {
    hide DecodeSafe, Unstable, Fold, Decoded, Ends, Equal, SameKey, Changed, Mismatch;
    var a := SettlesFirst(Ends(from, to, cs), n);
    var own, i := EndsCases(from, to, cs, a);
    mark := if own then Stays(from[i]) else StaysOut(a);
    forall x | x in Ends(from, to, cs)
      ensures Misses(mark, x, cs)
    {
      MissesFirst(a, x);
    }
    if own {
      MarkStays(from, to, i, cs);
    } else {
      MarkStaysOut(from, to, i, cs);
    }
  }

  lemma MarkStays(from: seq<Member>, to: seq<Member>, i: nat, cs: bool)
    requires Distinct(from, NameOf, cs) && i < |from| && Changed(from[i], to, cs)
    ensures forall k :: 0 <= k < |from| && !Changed(from[k], to, cs) ==> !SameKey(from[k].name, from[i].name, cs)
    ensures forall ms: seq<Member> :: from[i] in ms ==> !Equal(Object(ms), Object(to), cs)
  {
    hide Fold, Equal, Mismatch;
    forall k | 0 <= k < |from| && SameKey(from[k].name, from[i].name, cs)
      ensures k == i
    {
      DistinctIndex(from, k, i, cs);
    }
    forall ms: seq<Member> | from[i] in ms
      ensures !Equal(Object(ms), Object(to), cs)
    {
      if Equal(Object(ms), Object(to), cs) {
        var l :| 0 <= l < |ms| && ms[l] == from[i];
        var j := EqualMember(ms, to, cs, l);
        MismatchDiffers(from[i].value, to[j].value, cs);
      }
    }
  }

  lemma MarkStaysOut(from: seq<Member>, to: seq<Member>, j: nat, cs: bool)
    requires j < |to| && !HasKey(to[j].name, from, NameOf, cs)
    ensures forall k :: 0 <= k < |from| ==> !SameKey(from[k].name, to[j].name, cs)
    ensures forall ms: seq<Member> :: Marked(StaysOut(to[j].name), ms, cs) ==> !Equal(Object(ms), Object(to), cs)
  {
    hide Key, Equal;
    forall k | 0 <= k < |from|
      ensures !SameKey(from[k].name, to[j].name, cs)
    {
      SameKeySymmetric(from[k].name, to[j].name, cs);
    }
    forall ms: seq<Member> | Marked(StaysOut(to[j].name), ms, cs)
      ensures !Equal(Object(ms), Object(to), cs)
    {
      if Equal(Object(ms), Object(to), cs) {
        var i := EqualMemberBack(ms, to, cs, j);
      }
    }
  }

  // ---- Sorting does not matter ----

  lemma ChangedSorted(m: Member, to: seq<Member>, cs: bool)
    ensures Changed(m, Sort(to, NameOf, cs), cs) <==> Changed(m, to, cs)
  {
    hide SameKey, Sort, Mismatch;
    var t := Sort(to, NameOf, cs);
    if Changed(m, t, cs) {
      forall j | 0 <= j < |to| && SameKey(m.name, to[j].name, cs)
        ensures Mismatch(m.value, to[j].value)
      {
        var k := SortedAt(to, NameOf, cs, j);
      }
    }
    if Changed(m, to, cs) {
      forall k | 0 <= k < |t| && SameKey(m.name, t[k].name, cs)
        ensures Mismatch(m.value, t[k].value)
      {
        var j := SortedFrom(to, NameOf, cs, k);
      }
    }
  }

  lemma HasKeySorted(key: cstring, s: seq<Member>, cs: bool)
    ensures HasKey(key, Sort(s, NameOf, cs), NameOf, cs) <==> HasKey(key, s, NameOf, cs)
  {
    hide SameKey, Sort;
    if HasKey(key, s, NameOf, cs) {
      var i :| 0 <= i < |s| && SameKey(key, NameOf(s[i]), cs);
      var k := SortedAt(s, NameOf, cs, i);
    }
    if HasKey(key, Sort(s, NameOf, cs), NameOf, cs) {
      var k :| 0 <= k < |Sort(s, NameOf, cs)| && SameKey(key, NameOf(Sort(s, NameOf, cs)[k]), cs);
      var i := SortedFrom(s, NameOf, cs, k);
    }
  }

  lemma EndsSorted(from: seq<Member>, to: seq<Member>, cs: bool)
    ensures Ends(Sort(from, NameOf, cs), Sort(to, NameOf, cs), cs) == Ends(from, to, cs)
  {
    hide SameKey, Sort, Changed, HasKey, Ends;
    var s, t := Sort(from, NameOf, cs), Sort(to, NameOf, cs);
    forall n | n in Ends(from, to, cs)
      ensures n in Ends(s, t, cs)
    {
      var own, i := EndsCases(from, to, cs, n);
      if own {
        var k := SortedAt(from, NameOf, cs, i);
        ChangedSorted(s[k], to, cs);
        EndsOfFrom(s, t, cs, k);
      } else {
        var k := SortedAt(to, NameOf, cs, i);
        HasKeySorted(n, from, cs);
        EndsOfTo(s, t, cs, k);
      }
    }
    forall n | n in Ends(s, t, cs)
      ensures n in Ends(from, to, cs)
    {
      var own, k := EndsCases(s, t, cs, n);
      if own {
        var i := SortedFrom(from, NameOf, cs, k);
        ChangedSorted(s[k], to, cs);
        EndsOfFrom(from, to, cs, i);
      } else {
        var i := SortedFrom(to, NameOf, cs, k);
        HasKeySorted(n, from, cs);
        EndsOfTo(from, to, cs, i);
      }
    }
  }

  lemma MissSorted(mark: Mark, from: seq<Member>, to: seq<Member>, cs: bool)
    requires AllMiss(mark, from, to, cs)
    ensures AllMiss(mark, Sort(from, NameOf, cs), Sort(to, NameOf, cs), cs)
  {
    hide SameKey, Sort, Changed, Ends, Misses, NoKey, Fold;
    var s, t := Sort(from, NameOf, cs), Sort(to, NameOf, cs);
    EndsSorted(from, to, cs);
    if mark.Stays? {
      forall k | 0 <= k < |s| && !Changed(s[k], t, cs)
        ensures !SameKey(s[k].name, mark.m.name, cs)
      {
        var i := SortedFrom(from, NameOf, cs, k);
        ChangedSorted(s[k], to, cs);
      }
    }
  }

  /** The patches of two objects leave a mark that all of them miss. */
  lemma MarkKept(doc: Json, pointer: cstring, cs: bool, loc: Path, from: seq<Member>, to: seq<Member>, mark: Mark)
    returns (ms: seq<Member>)
    requires LeadsTo(doc, pointer, cs, loc) && At(doc, loc) == Object(from)
    requires Distinct(from, NameOf, cs) && Distinct(to, NameOf, cs) && AllMiss(mark, from, to, cs) &&
             Marked(mark, from, cs)
    ensures var (doc', status) := EditAll(doc, CreatePatches(pointer, Object(from), Object(to), cs), cs);
            status == 0 ==> doc' == Put(doc, loc, Object(ms)) && Marked(mark, ms, cs)
  {
    hide Ends, Equal, Sort, Distinct, AllMiss, Ascending, Put, Resolve, EditAll, At, Marked, MemberPatches;
    MissSorted(mark, from, to, cs);
    SortStrict(from, NameOf, cs);
    SortStrict(to, NameOf, cs);
    SortedMembersSmaller(from, cs);
    var s, t := Sort(from, NameOf, cs), Sort(to, NameOf, cs);
    RunKeeps(doc, pointer, cs, loc, s, t, MembersSize(from), mark);
    ObjectPatches(pointer, from, to, cs);
    var (doc', status) := EditAll(doc, MemberPatches(pointer, s, t, cs, MembersSize(from)), cs);
    if status == 0 {
      ms :| doc' == Put(doc, loc, Object(ms)) && Marked(mark, ms, cs);
    } else {
      ms := [];
    }
  }

  /** A path that ends in a name that does not survive spoils the patches of two objects. */
  lemma UnsafeEndSpoils(doc: Json, pointer: cstring, cs: bool, loc: Path, from: seq<Member>, to: seq<Member>,
                        n: cstring)
    returns (ms: seq<Member>)
    requires LeadsTo(doc, pointer, cs, loc) && At(doc, loc) == Object(from)
    requires Distinct(from, NameOf, cs) && Distinct(to, NameOf, cs)
    requires n in Ends(from, to, cs) && !DecodeSafe(n)
    ensures var (doc', status) := EditAll(doc, CreatePatches(pointer, Object(from), Object(to), cs), cs);
            status == 0 ==> doc' == Put(doc, loc, Object(ms)) && !Equal(Object(ms), Object(to), cs)
  {
    hide *;
    var mark := ChooseMark(from, to, cs, n);
    ms := MarkKept(doc, pointer, cs, loc, from, to, mark);
  }

  lemma HasKeyAt(key: cstring, s: seq<Member>, k: nat, cs: bool)
    requires k < |s| && SameKey(key, s[k].name, cs)
    ensures HasKey(key, s, NameOf, cs)
  {
    assert SameKey(key, NameOf(s[k]), cs);
  }

  lemma ObjectPatches(path: cstring, from: seq<Member>, to: seq<Member>, cs: bool)
    ensures forall i :: 0 <= i < |from| ==> Size(Sort(from, NameOf, cs)[i].value) <= MembersSize(from)
    ensures CreatePatches(path, Object(from), Object(to), cs) ==
            MemberPatches(path, Sort(from, NameOf, cs), Sort(to, NameOf, cs), cs, MembersSize(from))
  {
    hide Sort, MemberPatches;
    SortedMembersSmaller(from, cs);
  }
}
