/** JSON Patch, RFC 6902: applying patches and creating them. */
module JsonPatch {
  import opened CTypes
  import opened Names
  import opened Numerals
  import opened Sorting
  import opened Json
  import opened JsonPointer

  const HYPHEN: cchar := 45

  // "op", "path", "value", "from"
  const OP: cstring := [111, 112]
  const PATH: cstring := [112, 97, 116, 104]
  const VALUE: cstring := [118, 97, 108, 117, 101]
  const FROM: cstring := [102, 114, 111, 109]

  // "add", "remove", "replace", "move", "copy", "test"
  const ADD: cstring := [97, 100, 100]
  const REMOVE: cstring := [114, 101, 109, 111, 118, 101]
  const REPLACE: cstring := [114, 101, 112, 108, 97, 99, 101]
  const MOVE: cstring := [109, 111, 118, 101]
  const COPY: cstring := [99, 111, 112, 121]
  const TEST: cstring := [116, 101, 115, 116]

  // ---- Documents, changed at one place ----

  function ReplaceChild(j: Json, i: nat, x: Json): Json
    requires i < |Children(j)|
  {
    if j.Array? then Array(j.items[i := x]) else Object(j.members[i := j.members[i].(value := x)])
  }

  /** The document with another value at the given path. */
  function Put(j: Json, path: Path, x: Json): Json
    requires ValidPath(j, path)
    decreases |path|
  {
    if path == [] then x else ReplaceChild(j, path[0], Put(Children(j)[path[0]], path[1..], x))
  }

  function Without<T>(s: seq<T>, i: nat): seq<T>
    requires i < |s|
  {
    s[..i] + s[i + 1..]
  }

  // ---- Decoding the last token of a path ----

  /** decode_pointer_inplace from read position s and write position d: only escapes are written,
      and the slash of an escape one place too far; ordinary characters are not moved. */
  function DecodeFrom(buf: cstring, d: nat, s: nat): cstring
    requires d <= s <= |buf|
    decreases |buf| - s
  {
    if s == |buf| then buf[..d]
    else if buf[s] == TILDE then
      if s + 1 < |buf| && buf[s + 1] == ZERO then DecodeFrom(buf[d := TILDE], d + 1, s + 2)
      else if s + 1 < |buf| && buf[s + 1] == ONE then DecodeFrom(buf[d + 1 := SLASH], d + 1, s + 2)
      else buf
    else DecodeFrom(buf, d + 1, s + 1)
  }

  function DecodeInplace(token: cstring): cstring { DecodeFrom(token, 0, 0) }

  // ---- Applying a patch ----

  function GetMember(j: Json, name: cstring, cs: bool): Option<Json> {
    if !j.Object? then None
    else
      match Lookup(j.members, name, cs)
      case None => None
      case Some(i) => Some(j.members[i].value)
  }

  /** strrchr(path, '/'). */
  function LastSlash(path: cstring): (r: Option<nat>)
    ensures r.Some? ==> r.value < |path| && path[r.value] == SLASH && SLASH !in path[r.value + 1..]
    ensures r.None? ==> SLASH !in path
  {
    if path == [] then None
    else if path[|path| - 1] == SLASH then Some(|path| - 1)
    else LastSlash(path[..|path| - 1])
  }

  function DecodeIndexText(s: cstring): Option<int> {
    DecodeIndex(s[..TokenEnd(s, 0)])
  }

  datatype Detached = Detached(doc: Json, item: Json)

  /** detach_path: a member is detached without regard to case, in either mode. */
  function DetachPath(doc: Json, path: cstring, cs: bool): Option<Detached> {
    match LastSlash(path)
    case None => None
    case Some(k) =>
      match Resolve(doc, path[..k], cs)
      case None => None
      case Some(loc) =>
        var child := DecodeInplace(path[k + 1..]);
        match At(doc, loc)
        case Array(items) =>
          var i := DecodeIndexText(child);
          if i.Some? && 0 <= i.value < |items| then
            Some(Detached(Put(doc, loc, Array(Without(items, i.value))), items[i.value]))
          else None
        case Object(members) =>
          var i := Lookup(members, child, false);
          if i.Some? then Some(Detached(Put(doc, loc, Object(Without(members, i.value))), members[i.value].value))
          else None
        case _ => None
  }

  function DeleteMember(members: seq<Member>, name: cstring, cs: bool): seq<Member> {
    match Lookup(members, name, cs)
    case None => members
    case Some(i) => Without(members, i)
  }

  /** The end of apply_patch: add the value to the path. */
  function AddAtPath(doc: Json, path: cstring, value: Json, cs: bool): (Json, int) {
    match LastSlash(path)
    case None => (doc, 9)
    case Some(k) =>
      match Resolve(doc, path[..k], cs)
      case None => (doc, 9)
      case Some(loc) =>
        var child := DecodeInplace(path[k + 1..]);
        match At(doc, loc)
        case Array(items) =>
          if child == [HYPHEN] then (Put(doc, loc, Array(items + [value])), 0)
          else
            var i := DecodeIndexText(child);
            if i.None? then (doc, 11)
            else if 0 <= i.value <= |items| then
              (Put(doc, loc, Array(items[..i.value] + [value] + items[i.value..])), 0)
            else (doc, 10)
        case Object(members) =>
          (Put(doc, loc, Object(DeleteMember(members, child, cs) + [Member(child, value)])), 0)
        case _ => (doc, 9)
  }

  /** The value a move or a copy takes, with the document left for it. */
  function TakeFrom(doc: Json, patch: Json, move: bool, cs: bool): Option<Detached> {
    match GetMember(patch, FROM, cs)
    case Some(String(from)) =>
      if move then DetachPath(doc, from, cs)
      else
        (match Resolve(doc, from, cs)
         case None => None
         case Some(loc) => Some(Detached(doc, At(doc, loc))))
    case _ => None
  }

  /** The edit apply_patch makes: the new document and the status, 0 for success. Documents are values
      here, whose child lists all have their shape; tests, which edit nothing but may spoil that shape,
      and what becomes of spoilt lists, are the subject of module JsonPatchApply. */
  function Edit(doc: Json, patch: Json, cs: bool): (Json, int) {
    match GetMember(patch, PATH, cs)
    case Some(String(path)) =>
      (match GetMember(patch, OP, cs)
       case Some(String(op)) =>
         var value := GetMember(patch, VALUE, cs);
         if op !in {ADD, REMOVE, REPLACE, MOVE, COPY} then (doc, 3)
         else if path == [] && op == REMOVE then (Invalid, 0)
         else if path == [] && (op == REPLACE || op == ADD) then
           (if value.None? then (doc, 7) else (value.value, 0))
         else if op == REMOVE || op == REPLACE then
           var removed := DetachPath(doc, path, cs);
           if removed.None? then (doc, 13)
           else if op == REMOVE then (removed.value.doc, 0)
           else if value.None? then (removed.value.doc, 7)
           else AddAtPath(removed.value.doc, path, value.value, cs)
         else if op == MOVE || op == COPY then
           if GetMember(patch, FROM, cs).None? then (doc, 4)
           else
             var taken := TakeFrom(doc, patch, op == MOVE, cs);
             if taken.None? then (doc, 5) else AddAtPath(taken.value.doc, path, taken.value.item, cs)
         else if value.None? then (doc, 7)
         else AddAtPath(doc, path, value.value, cs)
       case _ => (doc, 3))
    case _ => (doc, 2)
  }

  /** The edits of a list of patches, up to the first failure. */
  function EditAll(doc: Json, patches: seq<Json>, cs: bool): (Json, int)
    decreases |patches|
  {
    if patches == [] then (doc, 0)
    else
      var (doc', status) := Edit(doc, patches[0], cs);
      if status != 0 then (doc', status) else EditAll(doc', patches[1..], cs)
  }

  // ---- Creating patches ----

  /** compose_patch. */
  function Compose(op: cstring, path: cstring, suffix: Option<cstring>, value: Option<Json>): Json {
    var full := if suffix.None? then path else path + [SLASH] + Encode(suffix.value);
    Object([Member(OP, String(op)), Member(PATH, String(full))] +
           if value.None? then [] else [Member(VALUE, value.value)])
  }

  /** Whether create_patches replaces the whole value. */
  predicate Mismatch(from: Json, to: Json) {
    || Kind(from) != Kind(to)
    || (from.Number? && from.n != to.n)
    || (from.String? && from.s != to.s)
  }

  /** create_patches. */
  function CreatePatches(path: cstring, from: Json, to: Json, cs: bool): seq<Json>
    decreases Size(from), 0
  {
    if Mismatch(from, to) then [Compose(REPLACE, path, None, Some(to))]
    else
      match from
      case Array(items) => ItemPatches(path, items, to.items, 0, cs)
      case Object(members) =>
        SortedMembersSmaller(members, cs);
        MemberPatches(path, Sort(members, NameOf, cs), Sort(to.members, NameOf, cs), cs, MembersSize(members))
      case _ => []
  }

  lemma SortedMembersSmaller(members: seq<Member>, cs: bool)
    ensures forall i :: 0 <= i < |members| ==> Size(Sort(members, NameOf, cs)[i].value) <= MembersSize(members)
  {
    forall i | 0 <= i < |members|
      ensures Size(Sort(members, NameOf, cs)[i].value) <= MembersSize(members)
    {
      SortedSmaller(members, cs, i);
    }
  }

  /** Its array loops from index i on: patch the common elements, remove the rest of `from` at one
      and the same index, append the rest of `to`. */
  function ItemPatches(path: cstring, from: seq<Json>, to: seq<Json>, i: nat, cs: bool): seq<Json>
    requires i <= |from| && i <= |to|
    decreases ItemsSize(from), 1 + |from| - i
  {
    if i < |from| && i < |to| then
      ItemSmaller(from, i);
      CreatePatches(path + [SLASH] + Decimal(i), from[i], to[i], cs) + ItemPatches(path, from, to, i + 1, cs)
    else Removals(path, i, |from| - i) + Additions(path, to[i..])
  }

  function Removals(path: cstring, i: nat, count: nat): seq<Json> {
    if count == 0 then [] else [Compose(REMOVE, path, Some(Decimal(i)), None)] + Removals(path, i, count - 1)
  }

  function Additions(path: cstring, items: seq<Json>): seq<Json> {
    if items == [] then [] else [Compose(ADD, path, Some([HYPHEN]), Some(items[0]))] + Additions(path, items[1..])
  }

  /** Its object loop, on what is left of the two sorted member lists. */
  function MemberPatches(path: cstring, from: seq<Member>, to: seq<Member>, cs: bool, ghost bound: nat): seq<Json>
    requires forall i :: 0 <= i < |from| ==> Size(from[i].value) <= bound
    decreases bound, 1 + |from| + |to|
  {
    if from == [] && to == [] then []
    else
      var diff := if from == [] then 1 else if to == [] then -1 else Compare(from[0].name, to[0].name, cs);
      if diff == 0 then
        CreatePatches(path + [SLASH] + Encode(from[0].name), from[0].value, to[0].value, cs)
        + MemberPatches(path, from[1..], to[1..], cs, bound)
      else if diff < 0 then
        [Compose(REMOVE, path, Some(from[0].name), None)] + MemberPatches(path, from[1..], to, cs, bound)
      else
        [Compose(ADD, path, Some(to[0].name), Some(to[0].value))] + MemberPatches(path, from, to[1..], cs, bound)
  }

  // ---- The functions as they are written ----

  /** A C string in a buffer: characters other than NUL, then a NUL. */
  ghost predicate Holds(buffer: seq<byte>, s: cstring) {
    |s| < |buffer| && buffer[..|s|] == s && buffer[|s|] == 0
  }

  /** decode_pointer_inplace. */
  method DecodePointerInplace(buffer: array<byte>, ghost text: cstring)
    requires Holds(buffer[..], text)
    modifies buffer
    ensures Holds(buffer[..], DecodeInplace(text))
  {
    var s, d := 0, 0;
    ghost var cur: cstring := text;
    while buffer[s] != 0
      invariant 0 <= d <= s <= |cur| == |text|
      invariant Holds(buffer[..], cur)
      invariant DecodeFrom(cur, d, s) == DecodeInplace(text)
      decreases |text| - s
    {
      assert s < |cur| && buffer[s] == cur[s];
      if buffer[s] == TILDE {
        assert s + 1 < |cur| ==> buffer[s + 1] == cur[s + 1];
        if buffer[s + 1] == ZERO {
          buffer[d] := TILDE;
          cur := cur[d := TILDE];
        } else if buffer[s + 1] == ONE {
          buffer[d + 1] := SLASH;
          cur := cur[d + 1 := SLASH];
        } else {
          return;
        }
        s := s + 1;
      }
      d, s := d + 1, s + 1;
    }
    buffer[d] := 0;
    assert buffer[..][..d] == cur[..d];
  }

  /** create_patches, appending to the list of patches. */
  method AppendPatches(patches: seq<Json>, path: cstring, from: Json, to: Json, cs: bool) returns (r: seq<Json>)
    ensures r == patches + CreatePatches(path, from, to, cs)
    decreases Size(from), 0
  {
    if Mismatch(from, to) {
      return patches + [Compose(REPLACE, path, None, Some(to))];
    }
    match from {
      case Array(items) => r := AppendItemPatches(patches, path, items, to.items, cs);
      case Object(members) =>
        SortedMembersSmaller(members, cs);
        r := AppendMemberPatches(patches, path, Sort(members, NameOf, cs), Sort(to.members, NameOf, cs), cs,
                                 MembersSize(members));
      case _ => r := patches;
    }
  }

  /** Its three loops over two arrays. */
  method AppendItemPatches(patches: seq<Json>, path: cstring, from: seq<Json>, to: seq<Json>, cs: bool)
    returns (r: seq<Json>)
    ensures r == patches + ItemPatches(path, from, to, 0, cs)
    decreases ItemsSize(from), 2 + |from|
  {
    hide CreatePatches, Compose, Decimal;
    r := patches;
    var index := 0;
    while index < |from| && index < |to|
      invariant 0 <= index <= |from| && index <= |to|
      invariant r + ItemPatches(path, from, to, index, cs) == patches + ItemPatches(path, from, to, 0, cs)
    {
      ItemSmaller(from, index);
      ghost var child := CreatePatches(path + [SLASH] + Decimal(index), from[index], to[index], cs);
      Associate(r, child, ItemPatches(path, from, to, index + 1, cs));
      r := AppendPatches(r, path + [SLASH] + Decimal(index), from[index], to[index], cs);
      index := index + 1;
    }
    ghost var before := r;
    var i := index;
    while i < |from|
      invariant index <= i <= |from|
      invariant r + Removals(path, index, |from| - i) == before + Removals(path, index, |from| - index)
    {
      var patch := Compose(REMOVE, path, Some(Decimal(index)), None);
      Associate(r, [patch], Removals(path, index, |from| - i - 1));
      r := r + [patch];
      i := i + 1;
    }
    assert r == before + Removals(path, index, |from| - index);
    Associate(before, Removals(path, index, |from| - index), Additions(path, to[index..]));
    r := AppendAdditions(r, path, to, index);
  }

  method AppendAdditions(patches: seq<Json>, path: cstring, to: seq<Json>, start: nat) returns (r: seq<Json>)
    requires start <= |to|
    ensures r == patches + Additions(path, to[start..])
  {
    hide Compose;
    r := patches;
    var i := start;
    while i < |to|
      invariant start <= i <= |to|
      invariant r + Additions(path, to[i..]) == patches + Additions(path, to[start..])
    {
      assert to[i..][1..] == to[i + 1..];
      var patch := Compose(ADD, path, Some([HYPHEN]), Some(to[i]));
      Associate(r, [patch], Additions(path, to[i + 1..]));
      r := r + [patch];
      i := i + 1;
    }
    assert r + Additions(path, to[i..]) == r;
  }

  /** Its loop over the sorted members of two objects. */
  method AppendMemberPatches(patches: seq<Json>, path: cstring, from: seq<Member>, to: seq<Member>, cs: bool,
                             ghost bound: nat)
    returns (r: seq<Json>)
    requires forall i :: 0 <= i < |from| ==> Size(from[i].value) <= bound
    ensures r == patches + MemberPatches(path, from, to, cs, bound)
    decreases bound, 2 + |from| + |to|
  {
    hide CreatePatches, Compose, Encode, Compare;
    r := patches;
    var i, j := 0, 0;
    assert from[0..] == from && to[0..] == to;
    while i < |from| || j < |to|
      invariant 0 <= i <= |from| && 0 <= j <= |to|
      invariant r + MemberPatches(path, from[i..], to[j..], cs, bound) ==
                patches + MemberPatches(path, from, to, cs, bound)
      decreases |from| - i + |to| - j
    {
      ghost var rest := MemberPatches(path, from[i..], to[j..], cs, bound);
      ghost var before := r;
      assert i < |from| ==> from[i..][1..] == from[i + 1..];
      assert j < |to| ==> to[j..][1..] == to[j + 1..];
      var diff := if i == |from| then 1 else if j == |to| then -1 else Compare(from[i].name, to[j].name, cs);
      if diff == 0 {
        var child := path + [SLASH] + Encode(from[i].name);
        ghost var first := CreatePatches(child, from[i].value, to[j].value, cs);
        assert rest == first + MemberPatches(path, from[i + 1..], to[j + 1..], cs, bound);
        r := AppendPatches(r, child, from[i].value, to[j].value, cs);
        i, j := i + 1, j + 1;
        Associate(before, first, MemberPatches(path, from[i..], to[j..], cs, bound));
      } else if diff < 0 {
        var patch := Compose(REMOVE, path, Some(from[i].name), None);
        assert rest == [patch] + MemberPatches(path, from[i + 1..], to[j..], cs, bound);
        r := r + [patch];
        i := i + 1;
        Associate(before, [patch], MemberPatches(path, from[i..], to[j..], cs, bound));
      } else {
        var patch := Compose(ADD, path, Some(to[j].name), Some(to[j].value));
        assert rest == [patch] + MemberPatches(path, from[i..], to[j + 1..], cs, bound);
        r := r + [patch];
        j := j + 1;
        Associate(before, [patch], MemberPatches(path, from[i..], to[j..], cs, bound));
      }
    }
    assert r + [] == r;
  }

  lemma Associate(x: seq<Json>, y: seq<Json>, z: seq<Json>)
    ensures x + (y + z) == (x + y) + z
  {}
}
