/** What single patches do to a document. */
module JsonPatchLaws {
  import opened CTypes
  import opened Names
  import opened Numerals
  import opened Sorting
  import opened Json
  import opened JsonPointer
  import opened JsonPatch

  // ---- Documents changed at one place ----

  lemma ReplaceChildren(j: Json, i: nat, x: Json)
    requires i < |Children(j)|
    ensures Children(ReplaceChild(j, i, x)) == Children(j)[i := x]
  {}

  lemma {:induction false} PutAt(j: Json, loc: Path, x: Json)
    requires ValidPath(j, loc)
    ensures ValidPath(Put(j, loc, x), loc) && At(Put(j, loc, x), loc) == x
    decreases |loc|
  {
    if loc != [] {
      var child := Children(j)[loc[0]];
      PutAt(child, loc[1..], x);
      ReplaceChildren(j, loc[0], Put(child, loc[1..], x));
    }
  }

  lemma {:induction false} PutPut(j: Json, loc: Path, x: Json, y: Json)
    requires ValidPath(j, loc)
    ensures ValidPath(Put(j, loc, x), loc) && Put(Put(j, loc, x), loc, y) == Put(j, loc, y)
    decreases |loc|
  {
    PutAt(j, loc, x);
    if loc != [] {
      var child := Children(j)[loc[0]];
      PutPut(child, loc[1..], x, y);
      ReplaceChildren(j, loc[0], Put(child, loc[1..], x));
      ReplaceTwice(j, loc[0], Put(child, loc[1..], x), Put(child, loc[1..], y));
    }
  }

  lemma ReplaceTwice(j: Json, i: nat, x: Json, y: Json)
    requires i < |Children(j)|
    ensures i < |Children(ReplaceChild(j, i, x))| && ReplaceChild(ReplaceChild(j, i, x), i, y) == ReplaceChild(j, i, y)
  {
    if j.Array? {
      assert j.items[i := x][i := y] == j.items[i := y];
    } else {
      assert j.members[i := j.members[i].(value := x)][i := j.members[i].(value := y)] ==
             j.members[i := j.members[i].(value := y)];
    }
  }

  lemma {:induction false} PutSame(j: Json, loc: Path)
    requires ValidPath(j, loc)
    ensures Put(j, loc, At(j, loc)) == j
    decreases |loc|
  {
    if loc != [] {
      PutSame(Children(j)[loc[0]], loc[1..]);
      if j.Array? {
        assert j.items[loc[0] := j.items[loc[0]]] == j.items;
      } else {
        assert j.members[loc[0] := j.members[loc[0]]] == j.members;
      }
    }
  }

  lemma {:induction false} PathSnoc(j: Json, loc: Path, i: nat, x: Json)
    requires ValidPath(j, loc) && i < |Children(At(j, loc))|
    ensures ValidPath(j, loc + [i]) && At(j, loc + [i]) == Children(At(j, loc))[i]
    ensures Put(j, loc + [i], x) == Put(j, loc, ReplaceChild(At(j, loc), i, x))
    decreases |loc|
  {
    if loc == [] {
      assert loc + [i] == [i] && [i][1..] == [];
    } else {
      PathSnoc(Children(j)[loc[0]], loc[1..], i, x);
      assert (loc + [i])[1..] == loc[1..] + [i];
    }
  }

  lemma {:induction false} FirstMatchRenames(members: seq<Member>, token: cstring, cs: bool, i: nat, x: Json)
    requires i < |members|
    ensures FirstMatch(members[i := members[i].(value := x)], token, cs) == FirstMatch(members, token, cs)
  {
    hide MatchesToken;
    var changed := members[i := members[i].(value := x)];
    if i > 0 {
      assert changed[1..] == members[1..][i - 1 := members[i].(value := x)];
      FirstMatchRenames(members[1..], token, cs, i - 1, x);
    } else {
      assert changed[1..] == members[1..];
    }
  }

  /** A change inside a node leaves the way to that node as it was. */
  lemma {:induction false} WalkPut(j: Json, tokens: seq<cstring>, cs: bool, loc: Path, x: Json)
    requires Walk(j, tokens, cs) == Some(loc)
    ensures Walk(Put(j, loc, x), tokens, cs) == Some(loc)
    decreases |tokens|
  {
    hide FirstMatch, DecodeIndex;
    if tokens != [] {
      var i := StepInto(j, tokens[0], cs).value;
      var child := Children(j)[i];
      assert loc[0] == i && loc[1..] == Walk(child, tokens[1..], cs).value;
      var child' := Put(child, loc[1..], x);
      WalkPut(child, tokens[1..], cs, loc[1..], x);
      ReplaceChildren(j, i, child');
      if j.Object? {
        FirstMatchRenames(j.members, tokens[0], cs, i, child');
      }
    }
  }

  lemma {:induction false} WalkSnoc(j: Json, tokens: seq<cstring>, token: cstring, cs: bool)
    ensures Walk(j, tokens + [token], cs) ==
            match Walk(j, tokens, cs) {
              case None => None
              case Some(loc) =>
                match StepInto(At(j, loc), token, cs) { case None => None case Some(i) => Some(loc + [i]) }
            }
    decreases |tokens|
  {
    hide StepInto;
    if tokens == [] {
      assert tokens + [token] == [token] && [token][1..] == [];
      var i := StepInto(j, token, cs);
      assert i.Some? ==> [i.value] + [] == [i.value] == [] + [i.value];
    } else {
      assert (tokens + [token])[1..] == tokens[1..] + [token];
      var r := StepInto(j, tokens[0], cs);
      if r.Some? {
        var child := Children(j)[r.value];
        WalkSnoc(child, tokens[1..], token, cs);
        var w := Walk(child, tokens[1..], cs);
        if w.Some? {
          assert ([r.value] + w.value)[1..] == w.value;
          var i := StepInto(At(child, w.value), token, cs);
          assert i.Some? ==> [r.value] + (w.value + [i.value]) == [r.value] + w.value + [i.value];
        }
      }
    }
  }

  /** A pointer that leads to a place of the document. */
  ghost predicate LeadsTo(doc: Json, pointer: cstring, cs: bool, loc: Path) {
    IsPointer(pointer) && Resolve(doc, pointer, cs) == Some(loc)
  }

  lemma LeadsToAfterPut(doc: Json, pointer: cstring, cs: bool, loc: Path, x: Json)
    requires LeadsTo(doc, pointer, cs, loc)
    ensures LeadsTo(Put(doc, loc, x), pointer, cs, loc) && At(Put(doc, loc, x), loc) == x
  {
    WalkPut(doc, Tokens(pointer), cs, loc, x);
    PutAt(doc, loc, x);
  }

  lemma LeadsToChild(doc: Json, pointer: cstring, cs: bool, loc: Path, token: cstring, i: nat)
    requires LeadsTo(doc, pointer, cs, loc) && SLASH !in token && StepInto(At(doc, loc), token, cs) == Some(i)
    ensures LeadsTo(doc, pointer + [SLASH] + token, cs, loc + [i])
    ensures At(doc, loc + [i]) == Children(At(doc, loc))[i]
  {
    hide StepInto;
    TokensSnoc(pointer, token);
    WalkSnoc(doc, Tokens(pointer), token, cs);
    PathSnoc(doc, loc, i, Null);
    assert (pointer + [SLASH] + token)[0] == if pointer == [] then SLASH else pointer[0];
  }

  // ---- Patches as compose_patch writes them ----

  lemma {:induction false} LastSlashAt(pointer: cstring, token: cstring)
    requires SLASH !in token
    ensures var path := pointer + [SLASH] + token;
            LastSlash(path) == Some(|pointer|) && path[..|pointer|] == pointer && path[|pointer| + 1..] == token
    decreases |token|
  {
    var path := pointer + [SLASH] + token;
    if token != [] {
      assert path[|path| - 1] == token[|token| - 1];
      assert path[..|path| - 1] == pointer + [SLASH] + token[..|token| - 1];
      LastSlashAt(pointer, token[..|token| - 1]);
    }
  }

  lemma KeyLengths(a: cstring, b: cstring, cs: bool)
    ensures |a| != |b| ==> !SameKey(a, b, cs)
  {}

  lemma ComposedMembers(op: cstring, path: cstring, suffix: Option<cstring>, value: Option<Json>, cs: bool)
    ensures var p := Compose(op, path, suffix, value);
            && GetMember(p, OP, cs) == Some(String(op))
            && GetMember(p, PATH, cs) ==
            Some(String(if suffix.None? then path else path + [SLASH] + Encode(suffix.value)))
            && GetMember(p, VALUE, cs) == value
  {
    hide SameKey, Encode;
    var members := Compose(op, path, suffix, value).members;
    KeyLengths(PATH, OP, cs);
    KeyLengths(VALUE, OP, cs);
    KeyLengths(VALUE, PATH, cs);
    SameKeyReflexive(OP, cs);
    SameKeyReflexive(PATH, cs);
    SameKeyReflexive(VALUE, cs);
    assert Lookup(members, OP, cs) == Some(0);
    assert Lookup(members[1..], PATH, cs) == Some(0);
    assert members[1..][1..] == if value.None? then [] else [Member(VALUE, value.value)];
    if value.Some? {
      assert Lookup(members[1..][1..], VALUE, cs) == Some(0);
      assert Lookup(members[1..], VALUE, cs) == Some(1);
    } else {
      assert Lookup(members[1..][1..], VALUE, cs) == None;
      assert Lookup(members[1..], VALUE, cs) == None;
    }
  }

  // ---- Names that survive the decoding of a path's last token ----

  /** No slash, and wherever the name has no tilde its encoding has the same character there. */
  predicate DecodeSafe(name: cstring) {
    && SLASH !in name
    && |Encode(name)| >= |name|
    && forall i :: 0 <= i < |name| && name[i] != TILDE ==> Encode(name)[i] == name[i]
  }

  /** A name that has been encoded and decoded in place. */
  function Decoded(name: cstring): cstring { DecodeInplace(Encode(name)) }

  lemma EncodeHead(buf: cstring, s: nat, name: cstring)
    requires s <= |buf| && buf[s..] == Encode(name) && name != []
    ensures name[0] == SLASH || name[0] == TILDE ==>
              && s + 1 < |buf| && buf[s] == TILDE && buf[s + 1] == (if name[0] == SLASH then ONE else ZERO)
              && buf[s + 2..] == Encode(name[1..])
    ensures name[0] != SLASH && name[0] != TILDE ==>
              s < |buf| && buf[s] == name[0] && buf[s + 1..] == Encode(name[1..])
  {
    var e := Encode(name);
    assert buf[s] == e[0];
    if name[0] == SLASH || name[0] == TILDE {
      assert buf[s + 1] == e[1] && buf[s + 2..] == e[2..];
    } else {
      assert buf[s + 1..] == e[1..];
    }
  }

  /** How decoding goes on after the character at d of an encoded name. */
  lemma DecodeStep(buf: cstring, d: nat, s: nat, name: cstring) returns (buf': cstring, s': nat)
    requires d <= s <= |buf| && d < |name| && buf[s..] == Encode(name[d..])
    ensures d + 1 <= s' <= |buf'| == |buf| && s < s' && buf'[s'..] == Encode(name[d + 1..])
    ensures DecodeFrom(buf, d, s) == DecodeFrom(buf', d + 1, s')
    ensures buf' == if name[d] == TILDE then buf[d := TILDE] else if name[d] == SLASH then buf[d + 1 := SLASH] else buf
  {
    EncodeHead(buf, s, name[d..]);
    assert name[d..][1..] == name[d + 1..];
    if name[d] == SLASH || name[d] == TILDE {
      buf', s' := if name[d] == TILDE then buf[d := TILDE] else buf[d + 1 := SLASH], s + 2;
      assert buf'[s'..] == buf[s'..];
    } else {
      buf', s' := buf, s + 1;
    }
  }

  lemma {:induction false} DecodeKeepsPrefix(buf: cstring, d: nat, s: nat, name: cstring)
    requires d <= s <= |buf| && d <= |name| && buf[s..] == Encode(name[d..])
    ensures |DecodeFrom(buf, d, s)| == |name| && DecodeFrom(buf, d, s)[..d] == buf[..d]
    ensures d < |name| ==> DecodeFrom(buf, d, s)[d] == if name[d] == TILDE then TILDE else buf[d]
    decreases |name| - d
  {
    if d < |name| {
      var buf', s' := DecodeStep(buf, d, s, name);
      hide Encode, DecodeFrom;
      DecodeKeepsPrefix(buf', d + 1, s', name);
      var r := DecodeFrom(buf', d + 1, s');
      assert r[..d + 1][d] == buf'[..d + 1][d];
      assert r[..d] == r[..d + 1][..d] == buf'[..d + 1][..d] == buf[..d];
    } else {
      EncodeNoSlash(buf[s..]);
      assert name[d..] == [];
    }
  }

  lemma {:induction false} DecodeEncoded(buf: cstring, d: nat, s: nat, name: cstring)
    requires d <= s <= |buf| && d <= |name| && buf[s..] == Encode(name[d..]) && SLASH !in buf
    ensures (forall i :: d <= i < |name| ==> i < |DecodeFrom(buf, d, s)| && DecodeFrom(buf, d, s)[i] == name[i])
            <==> (forall i :: d <= i < |name| ==>
                    name[i] != SLASH && (name[i] != TILDE ==> i < |buf| && buf[i] == name[i]))
    decreases |name| - d
  {
    DecodeKeepsPrefix(buf, d, s, name);
    if d < |name| {
      var buf', s' := DecodeStep(buf, d, s, name);
      hide Encode, DecodeFrom;
      var r := DecodeFrom(buf, d, s);
      if name[d] == SLASH {
        assert r[d] == buf[d];
      } else {
        DecodeEncoded(buf', d + 1, s', name);
        assert forall i :: d < i < |buf| ==> buf'[i] == buf[i];
      }
    }
  }

  /** decode_pointer_inplace undoes encode_string_as_pointer exactly on the safe names. */
  lemma DecodeUndoesEncodeIff(name: cstring)
    ensures DecodeInplace(Encode(name)) == name <==> DecodeSafe(name)
  {
    hide DecodeFrom;
    var e := Encode(name);
    EncodeNoSlash(name);
    EncodeLonger(name);
    assert e[0..] == e && name[0..] == name;
    DecodeKeepsPrefix(e, 0, 0, name);
    DecodeEncoded(e, 0, 0, name);
    var r := DecodeInplace(e);
    assert r == name <==> forall i :: 0 <= i < |name| ==> r[i] == name[i];
    assert SLASH !in name <==> forall i :: 0 <= i < |name| ==> name[i] != SLASH;
  }

  lemma {:induction false} EncodeLonger(name: cstring)
    ensures |Encode(name)| >= |name|
  {
    if name != [] { EncodeLonger(name[1..]); }
  }

  /** Names without tildes and slashes are safe, but not only they: a trailing tilde is, too. */
  lemma {:induction false} PlainEncodesToItself(name: cstring)
    requires SLASH !in name && TILDE !in name
    ensures Encode(name) == name && DecodeSafe(name)
  {
    if name != [] {
      PlainEncodesToItself(name[1..]);
      assert name == [name[0]] + name[1..];
    }
  }

  lemma {:induction false} DecodePlain(token: cstring, d: nat)
    requires d <= |token| && TILDE !in token
    ensures DecodeFrom(token, d, d) == token
    decreases |token| - d
  {
    if d < |token| { DecodePlain(token, d + 1); }
  }

  // ---- What single patches do to the place their path leads to ----

  /** The path of a composed patch, split again. */
  lemma ComposedPath(pointer: cstring, name: cstring)
    ensures SLASH !in Encode(name) && LastSlash(pointer + [SLASH] + Encode(name)) == Some(|pointer|)
    ensures var path := pointer + [SLASH] + Encode(name);
            path != [] && path[..|pointer|] == pointer && path[|pointer| + 1..] == Encode(name)
  {
    EncodeNoSlash(name);
    LastSlashAt(pointer, Encode(name));
  }

  lemma PlainIndex(i: nat)
    requires i < TWO_64
    ensures Encode(Decimal(i)) == Decimal(i) && DecodeInplace(Decimal(i)) == Decimal(i) && Decimal(i) != [HYPHEN]
    ensures DecodeIndexText(Decimal(i)) == Some(i as int) && SLASH !in Decimal(i)
  {
    var d := Decimal(i);
    DecimalDigits(i);
    DecodeDecimal(i);
    assert TILDE !in d && SLASH !in d;
    PlainEncodesToItself(d);
    DecodePlain(d, 0);
    TokenEndAt(d, 0, |d|);
    assert d[..|d|] == d;
  }

  /** A composed patch, down to the functions that do its work. */
  lemma ApplyComposed(doc: Json, op: cstring, path: cstring, suffix: Option<cstring>, value: Option<Json>, cs: bool)
    requires op in {ADD, REMOVE, REPLACE} && (op == REMOVE <==> value.None?) && (path != [] || suffix.Some?)
    ensures var full := if suffix.None? then path else path + [SLASH] + Encode(suffix.value);
            var removed := DetachPath(doc, full, cs);
            Edit(doc, Compose(op, path, suffix, value), cs) ==
            if op == ADD then AddAtPath(doc, full, value.value, cs)
            else if removed.None? then (doc, 13)
            else if op == REMOVE then (removed.value.doc, 0)
            else AddAtPath(removed.value.doc, full, value.value, cs)
  {
    hide Encode, Compose, DetachPath, AddAtPath, GetMember;
    ComposedMembers(op, path, suffix, value, cs);
  }

  /** Removing and adding at a path whose last token decodes to the given text. */
  lemma DetachItem(doc: Json, pointer: cstring, cs: bool, loc: Path, i: nat)
    requires LeadsTo(doc, pointer, cs, loc) && At(doc, loc).Array? && i < |At(doc, loc).items| && i < TWO_64
    ensures DetachPath(doc, pointer + [SLASH] + Decimal(i), cs) ==
            Some(Detached(Put(doc, loc, Array(Without(At(doc, loc).items, i))), At(doc, loc).items[i]))
  {
    hide DecodeInplace, DecodeIndexText, Decimal, LastSlash;
    PlainIndex(i);
    LastSlashAt(pointer, Decimal(i));
  }

  lemma AddItem(doc: Json, pointer: cstring, cs: bool, loc: Path, i: nat, value: Json)
    requires LeadsTo(doc, pointer, cs, loc) && At(doc, loc).Array? && i <= |At(doc, loc).items| && i < TWO_64
    ensures var items := At(doc, loc).items;
            AddAtPath(doc, pointer + [SLASH] + Decimal(i), value, cs) ==
            (Put(doc, loc, Array(items[..i] + [value] + items[i..])), 0)
  {
    hide DecodeInplace, DecodeIndexText, Decimal, LastSlash;
    PlainIndex(i);
    LastSlashAt(pointer, Decimal(i));
  }

  lemma AppendItem(doc: Json, pointer: cstring, cs: bool, loc: Path, value: Json)
    requires LeadsTo(doc, pointer, cs, loc) && At(doc, loc).Array?
    ensures AddAtPath(doc, pointer + [SLASH] + [HYPHEN], value, cs) ==
            (Put(doc, loc, Array(At(doc, loc).items + [value])), 0)
  {
    DecodePlain([HYPHEN], 0);
    hide DecodeInplace, LastSlash;
    LastSlashAt(pointer, [HYPHEN]);
  }

  /** Detaching and adding at the path of any name act on the name it decodes to. */
  lemma DetachNamed(doc: Json, pointer: cstring, cs: bool, loc: Path, name: cstring)
    requires LeadsTo(doc, pointer, cs, loc) && At(doc, loc).Object?
    ensures var members := At(doc, loc).members;
            var i := Lookup(members, Decoded(name), false);
            DetachPath(doc, pointer + [SLASH] + Encode(name), cs) ==
            if i.None? then None
            else Some(Detached(Put(doc, loc, Object(Without(members, i.value))), members[i.value].value))
  {
    hide Encode, DecodeInplace, Lookup, LastSlash;
    ComposedPath(pointer, name);
  }

  lemma AddNamed(doc: Json, pointer: cstring, cs: bool, loc: Path, name: cstring, value: Json)
    requires LeadsTo(doc, pointer, cs, loc) && At(doc, loc).Object?
    ensures var rest := DeleteMember(At(doc, loc).members, Decoded(name), cs);
            AddAtPath(doc, pointer + [SLASH] + Encode(name), value, cs) ==
            (Put(doc, loc, Object(rest + [Member(Decoded(name), value)])), 0)
  {
    hide Encode, DecodeInplace, DeleteMember, LastSlash;
    ComposedPath(pointer, name);
  }

  /** The three patches at the path of a name that survives, whatever the object holds. */
  lemma ApplyRemoveMember(doc: Json, pointer: cstring, cs: bool, loc: Path, name: cstring)
    requires LeadsTo(doc, pointer, cs, loc) && At(doc, loc).Object? && DecodeSafe(name)
    ensures var members := At(doc, loc).members;
            var i := Lookup(members, name, false);
            Edit(doc, Compose(REMOVE, pointer, Some(name), None), cs) ==
            if i.None? then (doc, 13) else (Put(doc, loc, Object(Without(members, i.value))), 0)
  {
    hide Encode, Compose, DecodeSafe, DecodeInplace, Lookup, DetachPath, Edit;
    DecodeUndoesEncodeIff(name);
    ApplyComposed(doc, REMOVE, pointer, Some(name), None, cs);
    DetachNamed(doc, pointer, cs, loc, name);
  }

  lemma ApplyAddMember(doc: Json, pointer: cstring, cs: bool, loc: Path, name: cstring, value: Json)
    requires LeadsTo(doc, pointer, cs, loc) && At(doc, loc).Object? && DecodeSafe(name)
    ensures Edit(doc, Compose(ADD, pointer, Some(name), Some(value)), cs) ==
            (Put(doc, loc, Object(DeleteMember(At(doc, loc).members, name, cs) + [Member(name, value)])), 0)
  {
    hide Encode, Compose, DecodeSafe, DecodeInplace, DeleteMember, AddAtPath, Edit;
    DecodeUndoesEncodeIff(name);
    ApplyComposed(doc, ADD, pointer, Some(name), Some(value), cs);
    AddNamed(doc, pointer, cs, loc, name, value);
  }

  lemma ApplyReplaceMember(doc: Json, pointer: cstring, cs: bool, loc: Path, name: cstring, value: Json)
    requires LeadsTo(doc, pointer, cs, loc) && At(doc, loc).Object? && DecodeSafe(name)
    ensures var members := At(doc, loc).members;
            var i := Lookup(members, name, false);
            Edit(doc, Compose(REPLACE, pointer + [SLASH] + Encode(name), None, Some(value)), cs) ==
            if i.None? then (doc, 13)
            else (Put(doc, loc, Object(DeleteMember(Without(members, i.value), name, cs) + [Member(name, value)])), 0)
  {
    hide Encode, Compose, DecodeSafe, DecodeInplace, Lookup, DeleteMember, DetachPath, AddAtPath, Edit, Resolve, Put;
    hide At;
    DecodeUndoesEncodeIff(name);
    ApplyComposed(doc, REPLACE, pointer + [SLASH] + Encode(name), None, Some(value), cs);
    DetachNamed(doc, pointer, cs, loc, name);
    var members := At(doc, loc).members;
    var i := Lookup(members, name, false);
    if i.Some? {
      var rest := Object(Without(members, i.value));
      LeadsToAfterPut(doc, pointer, cs, loc, rest);
      AddNamed(Put(doc, loc, rest), pointer, cs, loc, name, value);
      PutPut(doc, loc, rest, Object(DeleteMember(rest.members, name, cs) + [Member(name, value)]));
    }
  }

  lemma ApplyReplaceItem(doc: Json, pointer: cstring, cs: bool, loc: Path, i: nat, value: Json)
    requires LeadsTo(doc, pointer, cs, loc) && At(doc, loc).Array? && i < |At(doc, loc).items| && i < TWO_64
    ensures Edit(doc, Compose(REPLACE, pointer + [SLASH] + Decimal(i), None, Some(value)), cs) ==
            (Put(doc, loc, Array(At(doc, loc).items[i := value])), 0)
  {
    hide Compose, DetachPath, AddAtPath, Edit, Decimal, Resolve, Put, At;
    var items := At(doc, loc).items;
    ApplyComposed(doc, REPLACE, pointer + [SLASH] + Decimal(i), None, Some(value), cs);
    DetachItem(doc, pointer, cs, loc, i);
    var rest := Array(Without(items, i));
    LeadsToAfterPut(doc, pointer, cs, loc, rest);
    AddItem(Put(doc, loc, rest), pointer, cs, loc, i, value);
    PutPut(doc, loc, rest, Array(items[i := value]));
    assert rest.items[..i] + [value] + rest.items[i..] == items[i := value];
  }

  lemma ApplyRemoveItem(doc: Json, pointer: cstring, cs: bool, loc: Path, i: nat)
    requires LeadsTo(doc, pointer, cs, loc) && At(doc, loc).Array? && i < |At(doc, loc).items| && i < TWO_64
    ensures Edit(doc, Compose(REMOVE, pointer, Some(Decimal(i)), None), cs) ==
            (Put(doc, loc, Array(Without(At(doc, loc).items, i))), 0)
  {
    hide Encode, Compose, DetachPath, Edit, Decimal, DecodeInplace, DecodeIndexText;
    ApplyComposed(doc, REMOVE, pointer, Some(Decimal(i)), None, cs);
    PlainIndex(i);
    DetachItem(doc, pointer, cs, loc, i);
  }

  lemma ApplyAppendItem(doc: Json, pointer: cstring, cs: bool, loc: Path, value: Json)
    requires LeadsTo(doc, pointer, cs, loc) && At(doc, loc).Array?
    ensures Edit(doc, Compose(ADD, pointer, Some([HYPHEN]), Some(value)), cs) ==
            (Put(doc, loc, Array(At(doc, loc).items + [value])), 0)
  {
    hide Encode, Compose, AddAtPath, Edit;
    PlainEncodesToItself([HYPHEN]);
    ApplyComposed(doc, ADD, pointer, Some([HYPHEN]), Some(value), cs);
    AppendItem(doc, pointer, cs, loc, value);
  }

  lemma {:induction false} EditAllAppend(doc: Json, x: seq<Json>, doc': Json, y: seq<Json>, cs: bool)
    requires EditAll(doc, x, cs) == (doc', 0)
    ensures EditAll(doc, x + y, cs) == EditAll(doc', y, cs)
    decreases |x|
  {
    hide Edit;
    if x == [] {
      assert x + y == y;
    } else {
      assert (x + y)[1..] == x[1..] + y;
      EditAllAppend(Edit(doc, x[0], cs).0, x[1..], doc', y, cs);
    }
  }

  lemma EditAllOne(doc: Json, patch: Json, doc': Json, cs: bool)
    requires Edit(doc, patch, cs) == (doc', 0)
    ensures EditAll(doc, [patch], cs) == (doc', 0)
  {
    hide Edit;
    assert [patch][1..] == [];
  }
}
