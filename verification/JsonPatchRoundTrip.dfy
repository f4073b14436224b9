/** When created patches lead to the second document. */
module JsonPatchRoundTrip {
  import opened CTypes
  import opened Names
  import opened Numerals
  import opened Sorting
  import opened Json
  import opened JsonPointer
  import opened JsonPatch
  import opened JsonPatchLaws
  import opened JsonPatchDecode
  import opened JsonPatchMisled
  import opened JsonPatchNamesakes
  import opened JsonPatchLoop

  /** Every array index of the tree is a size_t. */
  predicate Addressable(j: Json) {
    && (j.Array? ==> |j.items| <= TWO_64 && forall i :: 0 <= i < |j.items| ==> Addressable(j.items[i]))
    && (j.Object? ==> forall i :: 0 <= i < |j.members| ==> Addressable(j.members[i].value))
  }

  /** Wherever the walk over both documents comes to two objects, every name that ends a path survives
      decoding, and names that differ in case only do not mislead the removals. */
  ghost predicate Patchable(from: Json, to: Json, cs: bool)
    decreases from
  {
    || Mismatch(from, to)
    || (&& (from.Array? ==> forall i :: 0 <= i < |from.items| && i < |to.items| ==>
              Patchable(from.items[i], to.items[i], cs))
        && (from.Object? ==>
              && EndsSafe(from.members, to.members, cs) && Untangled(from.members, to.members, cs)
              && PairsPatchable(from.members, to.members, cs)))
  }

  ghost predicate PairsPatchable(from: seq<Member>, to: seq<Member>, cs: bool)
    decreases from
  {
    forall i, j :: 0 <= i < |from| && 0 <= j < |to| && SameKey(from[i].name, to[j].name, cs) ==>
      Patchable(from[i].value, to[j].value, cs)
  }

  ghost predicate EndsSafe(from: seq<Member>, to: seq<Member>, cs: bool) {
    forall n :: n in Ends(from, to, cs) ==> DecodeSafe(n)
  }

  /** What is asked of two documents. */
  predicate Fit(from: Json, to: Json, cs: bool) {
    DistinctNames(from, cs) && Addressable(from) && DistinctNames(to, cs)
  }

  lemma FitItem(from: seq<Json>, to: seq<Json>, i: nat, cs: bool)
    requires Fit(Array(from), Array(to), cs) && i < |from| && i < |to|
    ensures Fit(from[i], to[i], cs) && i < TWO_64
  {}

  lemma FitMember(from: seq<Member>, to: seq<Member>, i: nat, j: nat, cs: bool)
    requires Fit(Object(from), Object(to), cs) && i < |from| && j < |to|
    ensures Fit(from[i].value, to[j].value, cs)
  {
    hide Distinct;
  }

  // ---- Arrays ----

  lemma {:induction false} ApplyRemovals(doc: Json, pointer: cstring, cs: bool, loc: Path, i: nat, count: nat)
    requires LeadsTo(doc, pointer, cs, loc) && At(doc, loc).Array? && |At(doc, loc).items| == i + count <= TWO_64
    ensures EditAll(doc, Removals(pointer, i, count), cs) == (Put(doc, loc, Array(At(doc, loc).items[..i])), 0)
    decreases count
  {
    hide Edit, Resolve, Compose, Decimal;
    var items := At(doc, loc).items;
    if count == 0 {
      PutSame(doc, loc);
      assert items[..i] == items;
    } else {
      var rest := Array(Without(items, i));
      ApplyRemoveItem(doc, pointer, cs, loc, i);
      LeadsToAfterPut(doc, pointer, cs, loc, rest);
      ApplyRemovals(Put(doc, loc, rest), pointer, cs, loc, i, count - 1);
      PutPut(doc, loc, rest, Array(items[..i]));
      assert rest.items[..i] == items[..i];
    }
  }

  lemma {:induction false} ApplyAdditions(doc: Json, pointer: cstring, cs: bool, loc: Path, more: seq<Json>)
    requires LeadsTo(doc, pointer, cs, loc) && At(doc, loc).Array?
    ensures EditAll(doc, Additions(pointer, more), cs) == (Put(doc, loc, Array(At(doc, loc).items + more)), 0)
    decreases |more|
  {
    hide Edit, Resolve, Compose;
    var items := At(doc, loc).items;
    if more == [] {
      PutSame(doc, loc);
      assert items + more == items;
    } else {
      var longer := Array(items + [more[0]]);
      ApplyAppendItem(doc, pointer, cs, loc, more[0]);
      LeadsToAfterPut(doc, pointer, cs, loc, longer);
      ApplyAdditions(Put(doc, loc, longer), pointer, cs, loc, more[1..]);
      PutPut(doc, loc, longer, Array(items + more));
      assert longer.items + more[1..] == items + more;
    }
  }

  /** The patches of one array element, applied where the element is. */
  lemma {:induction false} DiffItem(doc: Json, pointer: cstring, cs: bool, loc: Path, i: nat, to: Json)
    returns (x: Json)
    requires LeadsTo(doc, pointer, cs, loc) && At(doc, loc).Array? && i < |At(doc, loc).items| && i < TWO_64
    requires Fit(At(doc, loc).items[i], to, cs)
    ensures var items := At(doc, loc).items;
            var (doc', status) := EditAll(doc, CreatePatches(pointer + [SLASH] + Decimal(i), items[i], to, cs), cs);
            && (status == 0 ==> doc' == Put(doc, loc, Array(items[i := x])))
            && (status == 0 && Equal(x, to, cs) <==> Patchable(items[i], to, cs))
    decreases Size(At(doc, loc).items[i]), 1
  {
    hide Edit, EditAll, Resolve, Compose, Decimal, Equal, Fit, CreatePatches, Put, At;
    var items, path := At(doc, loc).items, pointer + [SLASH] + Decimal(i);
    if Mismatch(items[i], to) {
      x := to;
      EqualReflexive(to, cs);
      MismatchPatches(path, items[i], to, cs);
      ApplyReplaceItem(doc, pointer, cs, loc, i, to);
      EditAllSingle(doc, Compose(REPLACE, path, None, Some(to)), cs);
    } else {
      hide Mismatch, Patchable;
      DecodeDecimal(i);
      LeadsToChild(doc, pointer, cs, loc, Decimal(i), i);
      x := Diff(doc, path, cs, loc + [i], to);
      PathSnoc(doc, loc, i, x);
    }
  }

  ghost predicate ItemsEqual(r: seq<Json>, to: seq<Json>, i: nat, cs: bool) {
    |r| == |to| && forall k :: i <= k < |to| ==> Equal(r[k], to[k], cs)
  }

  ghost predicate ItemsPatchable(from: seq<Json>, to: seq<Json>, i: nat, cs: bool) {
    forall k :: i <= k < |from| && k < |to| ==> Patchable(from[k], to[k], cs)
  }

  lemma ItemsStep(r: seq<Json>, from: seq<Json>, to: seq<Json>, i: nat, cs: bool)
    requires i < |from| && i < |to| == |r|
    ensures ItemsEqual(r, to, i, cs) <==> Equal(r[i], to[i], cs) && ItemsEqual(r, to, i + 1, cs)
    ensures ItemsPatchable(from, to, i, cs) <==> Patchable(from[i], to[i], cs) && ItemsPatchable(from, to, i + 1, cs)
  {
    hide Equal, Patchable;
  }

  lemma ItemsEnd(r: seq<Json>, from: seq<Json>, to: seq<Json>, i: nat, cs: bool)
    requires (i >= |from| || i >= |to|) && |r| == |to| && forall k :: i <= k < |to| ==> r[k] == to[k]
    ensures ItemsEqual(r, to, i, cs) && ItemsPatchable(from, to, i, cs)
  {
    hide Equal, Patchable;
    forall k | i <= k < |to|
      ensures Equal(r[k], to[k], cs)
    {
      EqualReflexive(to[k], cs);
    }
  }

  lemma {:induction false} DiffItems(doc: Json, pointer: cstring, cs: bool, loc: Path, from: seq<Json>, to: seq<Json>,
                                     i: nat)
    returns (r: seq<Json>)
    requires LeadsTo(doc, pointer, cs, loc) && At(doc, loc).Array? && i <= |from| && i <= |to|
    requires |At(doc, loc).items| == |from| && At(doc, loc).items[i..] == from[i..]
    requires Fit(Array(from), Array(to), cs)
    ensures |r| == |to| && r[..i] == At(doc, loc).items[..i]
    ensures var (doc', status) := EditAll(doc, ItemPatches(pointer, from, to, i, cs), cs);
            && (status == 0 ==> doc' == Put(doc, loc, Array(r)))
            && (status == 0 && ItemsEqual(r, to, i, cs) <==> ItemsPatchable(from, to, i, cs))
    decreases ItemsSize(from), 1 + |from| - i
  {
    hide Edit, EditAll, Resolve, Compose, Decimal, Fit, CreatePatches, Equal, Put, At, Additions, Removals, Patchable;
    hide ItemsEqual, ItemsPatchable;
    var cur := At(doc, loc).items;
    if i < |from| && i < |to| {
      ItemSmaller(from, i);
      FitItem(from, to, i, cs);
      assert cur[i] == cur[i..][0] == from[i];
      var x := DiffItem(doc, pointer, cs, loc, i, to[i]);
      var next := cur[i := x];
      LeadsToAfterPut(doc, pointer, cs, loc, Array(next));
      assert next[i + 1..] == cur[i..][1..] == from[i + 1..];
      r := DiffItems(Put(doc, loc, Array(next)), pointer, cs, loc, from, to, i + 1);
      PrefixShorter(r, next, i);
      assert next[..i] == cur[..i];
      PutPut(doc, loc, Array(next), Array(r));
      ItemsStep(r, from, to, i, cs);
      var first := CreatePatches(pointer + [SLASH] + Decimal(i), from[i], to[i], cs);
      var rest := ItemPatches(pointer, from, to, i + 1, cs);
      assert ItemPatches(pointer, from, to, i, cs) == first + rest;
      hide ItemPatches;
      EditAllSplit(doc, first, rest, cs);
    } else {
      AddressableItems(from, to, cs);
      r := DiffRest(doc, pointer, cs, loc, to, i);
      ItemsEnd(r, from, to, i, cs);
    }
  }

  lemma PrefixShorter(r: seq<Json>, s: seq<Json>, i: nat)
    requires i < |r| && i < |s| && r[..i + 1] == s[..i + 1]
    ensures r[..i] == s[..i] && r[i] == s[i]
  {
    assert r[..i] == r[..i + 1][..i] && r[i] == r[..i + 1][i] && s[..i] == s[..i + 1][..i] && s[i] == s[..i + 1][i];
  }

  /** The two loops over the rest of either array. */
  lemma DiffRest(doc: Json, pointer: cstring, cs: bool, loc: Path, to: seq<Json>, i: nat) returns (r: seq<Json>)
    requires LeadsTo(doc, pointer, cs, loc) && At(doc, loc).Array? && i <= |At(doc, loc).items| <= TWO_64 && i <= |to|
    ensures r == At(doc, loc).items[..i] + to[i..]
    ensures EditAll(doc, Removals(pointer, i, |At(doc, loc).items| - i) + Additions(pointer, to[i..]), cs)
            == (Put(doc, loc, Array(r)), 0)
  {
    hide Edit, EditAll, Resolve, Compose, Decimal, Removals, Additions;
    var cur := At(doc, loc).items;
    r := cur[..i] + to[i..];
    ApplyRemovals(doc, pointer, cs, loc, i, |cur| - i);
    LeadsToAfterPut(doc, pointer, cs, loc, Array(cur[..i]));
    ApplyAdditions(Put(doc, loc, Array(cur[..i])), pointer, cs, loc, to[i..]);
    PutPut(doc, loc, Array(cur[..i]), Array(r));
    EditAllAppend(doc, Removals(pointer, i, |cur| - i), Put(doc, loc, Array(cur[..i])), Additions(pointer, to[i..]),
                  cs);
  }

  lemma AddressableItems(from: seq<Json>, to: seq<Json>, cs: bool)
    requires Fit(Array(from), Array(to), cs)
    ensures |from| <= TWO_64
  {}

  // ---- Objects ----

  /** The patches of one member present in both objects and the same in kind. */
  lemma {:induction false} DiffMember(doc: Json, pointer: cstring, cs: bool, loc: Path, k: nat, to: Json)
    returns (x: Json)
    requires LeadsTo(doc, pointer, cs, loc) && At(doc, loc).Object? && k < |At(doc, loc).members|
    requires var m := At(doc, loc).members[k];
             !Mismatch(m.value, to) && Fit(m.value, to, cs) && Lookup(At(doc, loc).members, m.name, cs) == Some(k)
    ensures var ms := At(doc, loc).members;
            var patches := CreatePatches(pointer + [SLASH] + Encode(ms[k].name), ms[k].value, to, cs);
            var (doc', status) := EditAll(doc, patches, cs);
            && (status == 0 ==> doc' == Put(doc, loc, Object(ms[k := Member(ms[k].name, x)])))
            && (status == 0 && Equal(x, to, cs) <==> Patchable(ms[k].value, to, cs))
    decreases Size(At(doc, loc).members[k].value), 1
  {
    hide Edit, EditAll, Resolve, Compose, Encode, Equal, Fit, Lookup, CreatePatches, Put, At, Mismatch, Patchable;
    var ms := At(doc, loc).members;
    var name, path := ms[k].name, pointer + [SLASH] + Encode(ms[k].name);
    EncodeNoSlash(name);
    FirstMatchEncoded(ms, name, cs);
    ObjectStep(At(doc, loc), Encode(name), cs);
    LeadsToChild(doc, pointer, cs, loc, Encode(name), k);
    x := Diff(doc, path, cs, loc + [k], to);
    PathSnoc(doc, loc, k, x);
  }

  ghost predicate Fits(from: seq<Member>, to: seq<Member>, cs: bool, bound: nat) {
    && (forall i :: 0 <= i < |from| ==> Size(from[i].value) <= bound)
    && forall i, j :: 0 <= i < |from| && 0 <= j < |to| && SameKey(from[i].name, to[j].name, cs) ==>
         Fit(from[i].value, to[j].value, cs)
  }

  lemma FitsRest(from: seq<Member>, to: seq<Member>, cs: bool, bound: nat)
    requires (from != [] || to != []) && Fits(from, to, cs, bound)
    ensures var (f, t) := Rest(from, to, cs); Fits(f, t, cs, bound)
  {
    hide Compare, SameKey, Fit;
  }

  ghost predicate AtLoop(doc: Json, pointer: cstring, loc: Path, a: Aim, l: Loop, bound: nat) {
    && LeadsTo(doc, pointer, a.cs, loc) && At(doc, loc).Object?
    && LoopInv(At(doc, loc).members, a, l) && Balanced(At(doc, loc).members, a, l)
    && Going(a, l, bound)
  }

  /** What is known of the lists, and of the names paths end in. */
  ghost predicate Going(a: Aim, l: Loop, bound: nat) {
    && Walks(a, l) && Fits(l.from, l.to, a.cs, bound)
    && EndsSafe(a.from, a.to, a.cs) && Ends(l.from, l.to, a.cs) <= Ends(a.from, a.to, a.cs)
  }

  lemma GoingOn(a: Aim, l: Loop, bound: nat, p: nat, made: Option<Member>)
    requires Going(a, l, bound) && (l.from != [] || l.to != [])
    requires made.None? <==> Rest(l.from, l.to, a.cs).1 == l.to
    requires made.Some? ==> l.to != [] && made.value.name == l.to[0].name
    ensures Going(a, After(l, p, made, a.cs), bound)
  {
    hide Compare, Fits, Ends, DecodeSafe, Ascending, Walks;
    WalksOn(a, l, p, made);
    StepKinds(a, l);
    EndsShrink(l.from, l.to, a.cs);
    FitsRest(l.from, l.to, a.cs, bound);
  }

  lemma LoopFacts(doc: Json, pointer: cstring, loc: Path, a: Aim, l: Loop, bound: nat)
    requires AtLoop(doc, pointer, loc, a, l, bound)
    ensures LeadsTo(doc, pointer, a.cs, loc) && At(doc, loc).Object?
    ensures LoopInv(At(doc, loc).members, a, l) && Balanced(At(doc, loc).members, a, l) && Going(a, l, bound)
    ensures Walks(a, l) && forall i :: 0 <= i < |l.from| ==> Size(l.from[i].value) <= bound
  {
    hide Resolve, LoopInv, Ascending, At, Ends, Walks, Balanced;
  }

  lemma LoopAgain(doc: Json, pointer: cstring, loc: Path, a: Aim, l: Loop, bound: nat, ms: seq<Member>)
    requires LeadsTo(doc, pointer, a.cs, loc) && LoopInv(ms, a, l) && Balanced(ms, a, l) && Going(a, l, bound)
    ensures AtLoop(Put(doc, loc, Object(ms)), pointer, loc, a, l, bound)
  {
    hide Resolve, LoopInv, At, Put, Going, Balanced;
    LeadsToAfterPut(doc, pointer, a.cs, loc, Object(ms));
  }

  /** What a step of the walk does when the patches go on as meant, and what it does when they do not. */
  ghost predicate Stepped(doc: Json, pointer: cstring, loc: Path, a: Aim, l: Loop, bound: nat, l': Loop,
                          ms: seq<Member>,
                          made: Option<Member>, good: bool)
    requires ValidPath(doc, loc) && (l.from != [] || l.to != [])
  {
    var (f, t) := Rest(l.from, l.to, a.cs);
    if good then
      && l' == After(l, l'.p, made, a.cs) && (made.None? <==> t == l.to)
      && (made.Some? ==> l.to != [] && made.value.name == l.to[0].name)
      && AtLoop(Put(doc, loc, Object(ms)), pointer, loc, a, l', bound)
    else Losing(ms, f, t, a)
  }

  lemma {:induction false} StepGone(doc: Json, pointer: cstring, loc: Path, a: Aim, l: Loop, bound: nat)
    returns (l': Loop, ms: seq<Member>, good: bool)
    requires AtLoop(doc, pointer, loc, a, l, bound) && l.from != [] && Rest(l.from, l.to, a.cs).1 == l.to
    ensures ValidPath(doc, loc) && Stepped(doc, pointer, loc, a, l, bound, l', ms, None, good)
    ensures good <==> Due(a.from, a.to, l.past, l.from[0], a.cs)
    ensures EditAll(doc, [Compose(REMOVE, pointer, Some(l.from[0].name), None)], a.cs) == (Put(doc, loc, Object(ms)), 0)
  {
    hide Resolve, Compose, LoopInv, Lookup, DecodeSafe, Edit, EditAll, Ends, Put, At, Compare, Due, Losing, Balanced;
    hide Walks, Fits;
    hide Ascending;
    LoopFacts(doc, pointer, loc, a, l, bound);
    var cur := At(doc, loc).members;
    l' := After(l, if l.p > 0 then l.p - 1 else 0, None, a.cs);
    StepKinds(a, l);
    EndsStep(l.from, l.to, a.cs);
    var k := GoneStep(cur, a, l, l');
    ms, good := Without(cur, k), Due(a.from, a.to, l.past, l.from[0], a.cs);
    ApplyRemoveMember(doc, pointer, a.cs, loc, l.from[0].name);
    EditAllSingle(doc, Compose(REMOVE, pointer, Some(l.from[0].name), None), a.cs);
    GoingOn(a, l, bound, l'.p, None);
    if good { LoopAgain(doc, pointer, loc, a, l', bound, ms); }
  }

  lemma {:induction false} StepReplaced(doc: Json, pointer: cstring, loc: Path, a: Aim, l: Loop, bound: nat)
    returns (l': Loop, ms: seq<Member>, good: bool)
    requires AtLoop(doc, pointer, loc, a, l, bound) && l.from != [] && l.to != []
    requires Rest(l.from, l.to, a.cs) == (l.from[1..], l.to[1..]) && Mismatch(l.from[0].value, l.to[0].value)
    ensures ValidPath(doc, loc) && Stepped(doc, pointer, loc, a, l, bound, l', ms, Some(l.to[0]), good)
    ensures good <==> Due(a.from, a.to, l.past, l.from[0], a.cs)
    ensures var path := pointer + [SLASH] + Encode(l.from[0].name);
            EditAll(doc, CreatePatches(path, l.from[0].value, l.to[0].value, a.cs), a.cs)
            == (Put(doc, loc, Object(ms)), 0)
  {
    hide Resolve, Compose, LoopInv, Lookup, DecodeSafe, Edit, EditAll, Ends, Put, At, Compare, Due, Losing, Balanced;
    hide Walks, Fits;
    hide Ascending, Mismatch, Encode, CreatePatches, DeleteMember;
    LoopFacts(doc, pointer, loc, a, l, bound);
    assert |l.from[1..]| < |l.from| && |l.to[1..]| < |l.to|;
    var cur, x, v := At(doc, loc).members, l.from[0], l.to[0].value;
    l' := After(l, if l.p > 0 then l.p - 1 else 0, Some(l.to[0]), a.cs);
    StepKinds(a, l);
    EndsStep(l.from, l.to, a.cs);
    var k := ReplacedStep(cur, a, l, l');
    ms, good := Replaced(cur, k, Member(x.name, v), a.cs), Due(a.from, a.to, l.past, x, a.cs);
    var path := pointer + [SLASH] + Encode(x.name);
    MismatchPatches(path, x.value, v, a.cs);
    ApplyReplaceMember(doc, pointer, a.cs, loc, x.name, v);
    EditAllSingle(doc, Compose(REPLACE, path, None, Some(v)), a.cs);
    GoingOn(a, l, bound, l'.p, Some(l.to[0]));
    if good { LoopAgain(doc, pointer, loc, a, l', bound, ms); }
  }

  lemma {:induction false} StepNew(doc: Json, pointer: cstring, loc: Path, a: Aim, l: Loop, bound: nat)
    returns (l': Loop, ms: seq<Member>)
    requires AtLoop(doc, pointer, loc, a, l, bound) && l.to != [] && Rest(l.from, l.to, a.cs).0 == l.from
    ensures ValidPath(doc, loc) && Stepped(doc, pointer, loc, a, l, bound, l', ms, Some(l.to[0]), true)
    ensures EditAll(doc, [Compose(ADD, pointer, Some(l.to[0].name), Some(l.to[0].value))], a.cs) ==
            (Put(doc, loc, Object(ms)), 0)
  {
    hide Resolve, Compose, LoopInv, Lookup, DecodeSafe, Edit, EditAll, Ends, Put, At, Compare, Losing, Balanced;
    hide Walks, Fits;
    hide Ascending, DeleteMember;
    LoopFacts(doc, pointer, loc, a, l, bound);
    var cur, t := At(doc, loc).members, l.to[0];
    l' := After(l, l.p, Some(t), a.cs);
    StepKinds(a, l);
    EndsStep(l.from, l.to, a.cs);
    NewStep(cur, a, l, l');
    ms := cur + [t];
    assert t == Member(t.name, t.value);
    ApplyAddMember(doc, pointer, a.cs, loc, t.name, t.value);
    EditAllSingle(doc, Compose(ADD, pointer, Some(t.name), Some(t.value)), a.cs);
    GoingOn(a, l, bound, l.p, Some(t));
    LoopAgain(doc, pointer, loc, a, l', bound, ms);
  }

  lemma FirstFits(l: Loop, cs: bool, bound: nat)
    requires Fits(l.from, l.to, cs, bound) && l.from != [] && l.to != [] && SameKey(l.from[0].name, l.to[0].name, cs)
    ensures Fit(l.from[0].value, l.to[0].value, cs) && Size(l.from[0].value) <= bound
  {
    hide Fit, SameKey;
  }

  lemma {:induction false} StepSame(doc: Json, pointer: cstring, loc: Path, a: Aim, l: Loop, bound: nat)
    returns (l': Loop, ms: seq<Member>, x: Json)
    requires AtLoop(doc, pointer, loc, a, l, bound) && l.from != [] && l.to != []
    requires Rest(l.from, l.to, a.cs) == (l.from[1..], l.to[1..]) && !Mismatch(l.from[0].value, l.to[0].value)
    ensures ValidPath(doc, loc) && Stepped(doc, pointer, loc, a, l, bound, l', ms, Some(Member(l.to[0].name, x)), true)
    ensures !Changed(l.from[0], a.to, a.cs)
    ensures var path := pointer + [SLASH] + Encode(l.from[0].name);
            var (d, status) := EditAll(doc, CreatePatches(path, l.from[0].value, l.to[0].value, a.cs), a.cs);
            && (status == 0 ==> d == Put(doc, loc, Object(ms)))
            && (status == 0 && Equal(x, l.to[0].value, a.cs) <==> Patchable(l.from[0].value, l.to[0].value, a.cs))
    decreases bound, 2
  {
    hide Resolve, LoopInv, Lookup, DecodeSafe, EditAll, Ends, Put, At, Compare, Losing, Balanced, Walks, Fits, Fit;
    hide SameKey;
    hide Ascending, Mismatch, Encode, CreatePatches, Equal, Patchable, Changed;
    LoopFacts(doc, pointer, loc, a, l, bound);
    assert |l.from[1..]| < |l.from| && |l.to[1..]| < |l.to|;
    var cur := At(doc, loc).members;
    StepKinds(a, l);
    FirstFits(l, a.cs, bound);
    var k := SameAt(cur, a, l);
    assert l.p <= |cur| by { LoopLength(cur, a, l); }
    x := DiffMember(doc, pointer, a.cs, loc, k, l.to[0].value);
    l' := After(l, l.p, Some(Member(l.to[0].name, x)), a.cs);
    SameStep(cur, a, l, l', k, x);
    ms := cur[k := Member(cur[k].name, x)];
    GoingOn(a, l, bound, l.p, Some(Member(l.to[0].name, x)));
    LoopAgain(doc, pointer, loc, a, l', bound, ms);
  }

  lemma PairsOfRest(from: seq<Member>, to: seq<Member>, i: nat, j: nat, cs: bool)
    requires i <= |from| && j <= |to| && PairsPatchable(from, to, cs)
    ensures PairsPatchable(from[i..], to[j..], cs)
  {
    hide SameKey, Patchable;
  }

  predicate HeadAlone(m: Member, others: seq<Member>, cs: bool) {
    forall j :: 0 <= j < |others| ==> !SameKey(m.name, others[j].name, cs) && !SameKey(others[j].name, m.name, cs)
  }

  lemma WithFrom(from: seq<Member>, to: seq<Member>, cs: bool)
    requires from != [] && PairsPatchable(from[1..], to, cs) && HeadAlone(from[0], to, cs)
    ensures PairsPatchable(from, to, cs)
  {
    hide SameKey, Patchable;
    forall i, j | 0 <= i < |from| && 0 <= j < |to| && SameKey(from[i].name, to[j].name, cs)
      ensures Patchable(from[i].value, to[j].value, cs)
    {
      assert from[1..][i - 1] == from[i];
    }
  }

  lemma WithTo(from: seq<Member>, to: seq<Member>, cs: bool)
    requires to != [] && PairsPatchable(from, to[1..], cs) && HeadAlone(to[0], from, cs)
    ensures PairsPatchable(from, to, cs)
  {
    hide SameKey, Patchable;
    forall i, j | 0 <= i < |from| && 0 <= j < |to| && SameKey(from[i].name, to[j].name, cs)
      ensures Patchable(from[i].value, to[j].value, cs)
    {
      assert to[1..][j - 1] == to[j];
    }
  }

  lemma WithBoth(from: seq<Member>, to: seq<Member>, cs: bool)
    requires from != [] && to != [] && PairsPatchable(from[1..], to[1..], cs)
    requires HeadAlone(from[0], to[1..], cs) && HeadAlone(to[0], from[1..], cs)
    requires SameKey(from[0].name, to[0].name, cs) ==> Patchable(from[0].value, to[0].value, cs)
    ensures PairsPatchable(from, to, cs)
  {
    hide SameKey, Patchable;
    forall i, j | 0 <= i < |from| && 0 <= j < |to| && SameKey(from[i].name, to[j].name, cs)
      ensures Patchable(from[i].value, to[j].value, cs)
    {
      assert i > 0 ==> from[1..][i - 1] == from[i];
      assert j > 0 ==> to[1..][j - 1] == to[j];
    }
  }

  lemma HeadsAlone(from: seq<Member>, to: seq<Member>, cs: bool)
    requires (from != [] || to != []) && Ascending(from, NameOf, cs) && Ascending(to, NameOf, cs)
    ensures var (f, t) := Rest(from, to, cs);
            && (f == from ==> HeadAlone(to[0], from, cs)) && (t == to ==> HeadAlone(from[0], to, cs))
            && (f != from && t != to ==> HeadAlone(from[0], t, cs) && HeadAlone(to[0], f, cs))
  {
    hide Compare, SameKey, Ascending;
    StepApart(from, to, cs);
    forall a, b { SameKeySymmetric(a, b, cs); }
  }

  /** Which pairs are left after a step of the walk. */
  lemma PairsStep(from: seq<Member>, to: seq<Member>, cs: bool)
    requires (from != [] || to != []) && Ascending(from, NameOf, cs) && Ascending(to, NameOf, cs)
    ensures var (f, t) := Rest(from, to, cs);
            PairsPatchable(from, to, cs) <==>
            PairsPatchable(f, t, cs)
            && (from != [] && to != [] && SameKey(from[0].name, to[0].name, cs) ==>
                  Patchable(from[0].value, to[0].value, cs))
  {
    hide Compare, SameKey, Ascending, Patchable, HeadAlone;
    var (f, t) := Rest(from, to, cs);
    HeadsAlone(from, to, cs);
    if PairsPatchable(from, to, cs) {
      PairsOfRest(from, to, |from| - |f|, |to| - |t|, cs);
      assert f == from[|from| - |f|..] && t == to[|to| - |t|..];
    }
    hide PairsPatchable;
    if f == from {
      if PairsPatchable(f, t, cs) { WithTo(from, to, cs); }
      if from != [] { AloneAt(to[0], from, cs, 0); }
    } else if t == to {
      if PairsPatchable(f, t, cs) { WithFrom(from, to, cs); }
      if to != [] { AloneAt(from[0], to, cs, 0); }
    } else if PairsPatchable(f, t, cs) {
      if SameKey(from[0].name, to[0].name, cs) ==> Patchable(from[0].value, to[0].value, cs) { WithBoth(from, to, cs); }
    }
  }

  lemma AloneAt(m: Member, others: seq<Member>, cs: bool, j: nat)
    requires HeadAlone(m, others, cs) && j < |others|
    ensures !SameKey(m.name, others[j].name, cs) && !SameKey(others[j].name, m.name, cs)
  {}

  /** What became of the members of the second object is what they are. */
  ghost predicate AllEqual(made: seq<Member>, to: seq<Member>, cs: bool) {
    |made| == |to| && forall i :: 0 <= i < |to| ==> Equal(made[i].value, to[i].value, cs)
  }

  lemma AllEqualSnoc(made: seq<Member>, to: seq<Member>, m: Member, t: Member, cs: bool)
    requires |made| == |to|
    ensures AllEqual(made + [m], to + [t], cs) <==> AllEqual(made, to, cs) && Equal(m.value, t.value, cs)
  {
    hide Equal;
    var a, b := made + [m], to + [t];
    if AllEqual(a, b, cs) {
      assert a[|made|] == m && b[|to|] == t;
      forall i | 0 <= i < |to|
        ensures Equal(made[i].value, to[i].value, cs)
      {
        assert a[i] == made[i] && b[i] == to[i];
      }
    }
  }

  /** Whether the walk goes as it should from here on. */
  ghost predicate GoesWell(a: Aim, l: Loop) {
    && AllEqual(l.done, l.passed, a.cs) && PairsPatchable(l.from, l.to, a.cs)
    && AllDue(a.from, a.to, l.past, l.from, a.cs)
  }

  lemma GoesWellStep(a: Aim, l: Loop, l': Loop, made: Option<Member>)
    requires Walks(a, l) && (l.from != [] || l.to != []) && l' == After(l, l'.p, made, a.cs)
    requires made.None? <==> Rest(l.from, l.to, a.cs).1 == l.to
    ensures var both := l.from != [] && l.to != [] && SameKey(l.from[0].name, l.to[0].name, a.cs);
            var here := && (both ==> Patchable(l.from[0].value, l.to[0].value, a.cs))
                        && (l'.from != l.from && Changed(l.from[0], a.to, a.cs) ==>
                              Due(a.from, a.to, l.past, l.from[0], a.cs));
            && (GoesWell(a, l) ==> here)
            && (if made.None? || Equal(made.value.value, l.to[0].value, a.cs)
                then GoesWell(a, l) <==> here && GoesWell(a, l')
                else !GoesWell(a, l'))
  {
    hide Compare, SameKey, Patchable, Ascending, Equal, Due, Changed, AllEqual, PairsPatchable, Distinct, ToCome;
    hide HasKey, Sort;
    StepKinds(a, l);
    PairsStep(l.from, l.to, a.cs);
    if made.Some? { AllEqualSnoc(l.done, l.passed, made.value, l.to[0], a.cs); }
    assert l.from != [] ==> |l.from[1..]| < |l.from|;
    assert l.to != [] ==> |l.to[1..]| < |l.to|;
    if l'.from != l.from { DueNext(a, l); }
  }

  lemma DueNext(a: Aim, l: Loop)
    requires l.from != []
    ensures AllDue(a.from, a.to, l.past, l.from, a.cs) <==>
            (Changed(l.from[0], a.to, a.cs) ==> Due(a.from, a.to, l.past, l.from[0], a.cs))
            && AllDue(a.from, a.to, l.past + [l.from[0]], l.from[1..], a.cs)
  {
    hide Changed, Due;
  }

  /** One step of the object loop, carried out by applying its patches. */
  lemma {:induction false} DiffStep(doc: Json, pointer: cstring, loc: Path, a: Aim, l: Loop, bound: nat)
    returns (l': Loop, ms: seq<Member>, made: Option<Member>, good: bool)
    requires AtLoop(doc, pointer, loc, a, l, bound) && (l.from != [] || l.to != [])
    ensures ValidPath(doc, loc) && Stepped(doc, pointer, loc, a, l, bound, l', ms, made, good)
    ensures var (f, t) := Rest(l.from, l.to, a.cs);
            var (d, status) := EditAll(doc, StepPatches(pointer, l.from, l.to, a.cs), a.cs);
            var both := l.from != [] && l.to != [] && SameKey(l.from[0].name, l.to[0].name, a.cs);
            && (good <==> (f != l.from && Changed(l.from[0], a.to, a.cs) ==>
                             Due(a.from, a.to, l.past, l.from[0], a.cs)))
            && (status == 0 ==> d == Put(doc, loc, Object(ms)))
            && (good ==> (status == 0 && (made.Some? ==> Equal(made.value.value, l.to[0].value, a.cs)) <==>
                          (both ==> Patchable(l.from[0].value, l.to[0].value, a.cs))))
    decreases bound, 3
  {
    hide Resolve, LoopInv, Lookup, DecodeSafe, EditAll, Ends, Put, At, Losing, Balanced, Walks, Fits, Fit, SameKey;
    hide Compare;
    hide Ascending, Mismatch, Encode, CreatePatches, Equal, Patchable, Changed, Compose, Stepped, AtLoop, Due;
    LoopFacts(doc, pointer, loc, a, l, bound);
    StepKinds(a, l);
    if l.from != [] && l.to != [] { CompareOrder(l.from[0].name, l.to[0].name, l.from[0].name, a.cs); }
    assert l.from != [] ==> |l.from[1..]| < |l.from|;
    assert l.to != [] ==> |l.to[1..]| < |l.to|;
    if l.from != [] && l.to != [] && Compare(l.from[0].name, l.to[0].name, a.cs) == 0 {
      if Mismatch(l.from[0].value, l.to[0].value) {
        made := Some(l.to[0]);
        l', ms, good := StepReplaced(doc, pointer, loc, a, l, bound);
        EqualReflexive(l.to[0].value, a.cs);
        MismatchPatchable(l.from[0].value, l.to[0].value, a.cs);
      } else {
        var x;
        l', ms, x := StepSame(doc, pointer, loc, a, l, bound);
        made, good := Some(Member(l.to[0].name, x)), true;
      }
    } else if l.from != [] && (l.to == [] || Compare(l.from[0].name, l.to[0].name, a.cs) < 0) {
      made := None;
      l', ms, good := StepGone(doc, pointer, loc, a, l, bound);
    } else {
      made, good := Some(l.to[0]), true;
      l', ms := StepNew(doc, pointer, loc, a, l, bound);
      EqualReflexive(l.to[0].value, a.cs);
    }
  }

  lemma MismatchPatchable(from: Json, to: Json, cs: bool)
    requires Mismatch(from, to)
    ensures Patchable(from, to, cs)
  {}

  lemma SteppedGood(doc: Json, pointer: cstring, loc: Path, a: Aim, l: Loop, bound: nat, l': Loop, ms: seq<Member>,
                    made: Option<Member>)
    requires ValidPath(doc, loc) && (l.from != [] || l.to != []) &&
             Stepped(doc, pointer, loc, a, l, bound, l', ms, made, true)
    ensures l' == After(l, l'.p, made, a.cs) && (made.None? <==> Rest(l.from, l.to, a.cs).1 == l.to)
    ensures AtLoop(Put(doc, loc, Object(ms)), pointer, loc, a, l', bound)
  {
    hide AtLoop, Put;
  }

  /** After a step that loses something the patches do not lead to the second object any more. */
  lemma LosingStep(doc: Json, pointer: cstring, loc: Path, a: Aim, l: Loop, bound: nat, ms: seq<Member>)
    returns (r: Json)
    requires AtLoop(doc, pointer, loc, a, l, bound) && (l.from != [] || l.to != [])
    requires var (f, t) := Rest(l.from, l.to, a.cs); Losing(ms, f, t, a)
    ensures var (f, t) := Rest(l.from, l.to, a.cs);
            && (forall i :: 0 <= i < |f| ==> Size(f[i].value) <= bound)
            && var (d, status) := EditAll(Put(doc, loc, Object(ms)), MemberPatches(pointer, f, t, a.cs, bound), a.cs);
               status == 0 ==> d == Put(doc, loc, r) && !Equal(r, Object(a.to), a.cs)
  {
    hide Resolve, LoopInv, Lookup, DecodeSafe, EditAll, Ends, Put, At, Losing, Balanced, Fits, Compare, Ascending;
    hide Equal;
    hide MemberPatches, Distinct, ToCome, HasKey, Sort;
    LoopFacts(doc, pointer, loc, a, l, bound);
    StepKinds(a, l);
    var (f, t) := Rest(l.from, l.to, a.cs);
    StepApart(l.from, l.to, a.cs);
    EndsShrink(l.from, l.to, a.cs);
    FitsRest(l.from, l.to, a.cs, bound);
    FitsBound(f, t, a.cs, bound);
    LeadsToAfterPut(doc, pointer, a.cs, loc, Object(ms));
    r := LosingRun(Put(doc, loc, Object(ms)), pointer, loc, a, f, t, bound);
    PutPut(doc, loc, Object(ms), r);
  }

  lemma FitsBound(from: seq<Member>, to: seq<Member>, cs: bool, bound: nat)
    requires Fits(from, to, cs, bound)
    ensures forall i :: 0 <= i < |from| ==> Size(from[i].value) <= bound
  {
    hide Fit, SameKey;
  }

  /** The object loop of create_patches, carried out by applying its patches. */
  lemma {:induction false} DiffMembers(doc: Json, pointer: cstring, loc: Path, a: Aim, l: Loop, bound: nat)
    returns (r: Json)
    requires AtLoop(doc, pointer, loc, a, l, bound)
    ensures ValidPath(doc, loc) && forall i :: 0 <= i < |l.from| ==> Size(l.from[i].value) <= bound
    ensures var (doc', status) := EditAll(doc, MemberPatches(pointer, l.from, l.to, a.cs, bound), a.cs);
            && (status == 0 ==> doc' == Put(doc, loc, r))
            && (status == 0 && Equal(r, Object(a.to), a.cs) <==> GoesWell(a, l))
    decreases bound, 4 + |l.from| + |l.to|
  {
    hide Resolve, Equal, Ascending, LoopInv, SameKey, EditAll, StepPatches, MemberPatches, Patchable, Put, At, AtLoop;
    hide Compare;
    hide Stepped, Losing, GoesWell, Due, Changed, Walks, Balanced, Going;
    LoopFacts(doc, pointer, loc, a, l, bound);
    if l.from == [] && l.to == [] {
      r := At(doc, loc);
      PutSame(doc, loc);
      NoMemberPatches(pointer, a.cs, bound);
      ApplyNone(doc, a.cs);
      WalkDone(r.members, a, l);
    } else {
      var l', ms, made, good := DiffStep(doc, pointer, loc, a, l, bound);
      var (f, t) := Rest(l.from, l.to, a.cs);
      MemberPatchesStep(pointer, l.from, l.to, a.cs, bound);
      EditAllSplit(doc, StepPatches(pointer, l.from, l.to, a.cs), MemberPatches(pointer, f, t, a.cs, bound), a.cs);
      var (d, status) := EditAll(doc, StepPatches(pointer, l.from, l.to, a.cs), a.cs);
      r := Null;
      if good {
        SteppedGood(doc, pointer, loc, a, l, bound, l', ms, made);
        GoesWellStep(a, l, l', made);
        if status == 0 {
          r := DiffMembers(d, pointer, loc, a, l', bound);
          PutPut(doc, loc, Object(ms), r);
        }
      } else {
        SteppedBad(doc, pointer, loc, a, l, bound, l', ms, made);
        NotGoesWell(a, l);
        if status == 0 { r := LosingStep(doc, pointer, loc, a, l, bound, ms); }
      }
    }
  }

  lemma SteppedBad(doc: Json, pointer: cstring, loc: Path, a: Aim, l: Loop, bound: nat, l': Loop, ms: seq<Member>,
                   made: Option<Member>)
    requires ValidPath(doc, loc) && (l.from != [] || l.to != []) &&
             Stepped(doc, pointer, loc, a, l, bound, l', ms, made, false)
    ensures var (f, t) := Rest(l.from, l.to, a.cs); Losing(ms, f, t, a)
  {
    hide Losing, Rest;
  }

  lemma NotGoesWell(a: Aim, l: Loop)
    requires l.from != [] && Changed(l.from[0], a.to, a.cs) && !Due(a.from, a.to, l.past, l.from[0], a.cs)
    ensures !GoesWell(a, l)
  {
    hide Changed, Due, PairsPatchable, AllEqual;
  }

  lemma WalkDone(cur: seq<Member>, a: Aim, l: Loop)
    requires LoopInv(cur, a, l) && Walks(a, l) && l.from == [] && l.to == []
    ensures Equal(Object(cur), Object(a.to), a.cs) <==> GoesWell(a, l)
  {
    hide LoopInv, Equal, Ascending, Distinct, ToCome, HasKey, Sort, AllEqual, Patchable;
    LoopEnds(cur, a, l);
    assert l.passed + l.to == l.passed;
    SortStrict(a.to, NameOf, a.cs);
    MadeEqual(Object(cur), l.done, l.passed, a.cs);
    SortedEqual(Object(cur), a.to, a.cs);
  }

  lemma ApplyNone(doc: Json, cs: bool)
    ensures EditAll(doc, [], cs) == (doc, 0)
  {}

  /** What the loop made of the members is what they should be exactly when each value is. */
  lemma MadeEqual(r: Json, made: seq<Member>, to: seq<Member>, cs: bool)
    requires Equal(r, Object(made), cs) && SameNames(made, to) && Distinct(to, NameOf, cs)
    ensures Equal(r, Object(to), cs) <==> AllEqual(made, to, cs)
  {
    hide Equal, SameKey, Distinct;
    if AllEqual(made, to, cs) {
      forall i | 0 <= i < |to|
        ensures Matched(made[i], to, cs) && MatchedBy(made, to[i], cs)
      {
        SameKeyReflexive(to[i].name, cs);
      }
      EqualObjects(made, to, cs);
      EqualTransitive(r, Object(made), Object(to), cs);
    }
    if Equal(r, Object(to), cs) {
      EqualSymmetric(r, Object(made), cs);
      EqualTransitive(Object(made), r, Object(to), cs);
      forall i | 0 <= i < |to|
        ensures Equal(made[i].value, to[i].value, cs)
      {
        var j := EqualMember(made, to, cs, i);
        DistinctIndex(to, i, j, cs);
      }
    }
  }

  lemma SortedEqualItself(to: seq<Member>, cs: bool)
    ensures Equal(Object(Sort(to, NameOf, cs)), Object(to), cs)
  {
    hide Sort, SameKey, Equal;
    var t := Sort(to, NameOf, cs);
    forall i | 0 <= i < |t|
      ensures Matched(t[i], to, cs)
    {
      var k := SortedFrom(to, NameOf, cs, i);
      SameKeyReflexive(to[k].name, cs);
      EqualReflexive(to[k].value, cs);
    }
    forall k | 0 <= k < |to|
      ensures MatchedBy(t, to[k], cs)
    {
      var j := SortedAt(to, NameOf, cs, k);
      SameKeyReflexive(to[k].name, cs);
      EqualReflexive(to[k].value, cs);
    }
    EqualObjects(t, to, cs);
  }

  lemma SortedEqual(r: Json, to: seq<Member>, cs: bool)
    ensures Equal(r, Object(Sort(to, NameOf, cs)), cs) <==> Equal(r, Object(to), cs)
  {
    hide *;
    var t := Object(Sort(to, NameOf, cs));
    SortedEqualItself(to, cs);
    EqualSymmetric(t, Object(to), cs);
    if Equal(r, t, cs) { EqualTransitive(r, t, Object(to), cs); }
    if Equal(r, Object(to), cs) { EqualTransitive(r, Object(to), t, cs); }
  }

  lemma SortedPairs(from: seq<Member>, to: seq<Member>, cs: bool)
    ensures PairsPatchable(Sort(from, NameOf, cs), Sort(to, NameOf, cs), cs) <==> PairsPatchable(from, to, cs)
  {
    hide Sort, SameKey, Patchable;
    var s, t := Sort(from, NameOf, cs), Sort(to, NameOf, cs);
    if PairsPatchable(s, t, cs) {
      forall i, j | 0 <= i < |from| && 0 <= j < |to| && SameKey(from[i].name, to[j].name, cs)
        ensures Patchable(from[i].value, to[j].value, cs)
      {
        var k := SortedAt(from, NameOf, cs, i);
        var l := SortedAt(to, NameOf, cs, j);
      }
    }
    if PairsPatchable(from, to, cs) {
      forall k, l | 0 <= k < |s| && 0 <= l < |t| && SameKey(s[k].name, t[l].name, cs)
        ensures Patchable(s[k].value, t[l].value, cs)
      {
        var i := SortedFrom(from, NameOf, cs, k);
        var j := SortedFrom(to, NameOf, cs, l);
      }
    }
  }

  lemma SortedFits(from: seq<Member>, to: seq<Member>, cs: bool)
    requires Fit(Object(from), Object(to), cs)
    ensures Fits(Sort(from, NameOf, cs), Sort(to, NameOf, cs), cs, MembersSize(from))
  {
    hide Sort, Fit, SameKey;
    var s, t := Sort(from, NameOf, cs), Sort(to, NameOf, cs);
    SortedMembersSmaller(from, cs);
    forall k, l | 0 <= k < |s| && 0 <= l < |t| && SameKey(s[k].name, t[l].name, cs)
      ensures Fit(s[k].value, t[l].value, cs)
    {
      var i := SortedFrom(from, NameOf, cs, k);
      var j := SortedFrom(to, NameOf, cs, l);
      FitMember(from, to, i, j, cs);
    }
  }

  /** The patches of two objects, every path of which ends in a name that survives. */
  lemma {:induction false} DiffObjects(doc: Json, pointer: cstring, cs: bool, loc: Path, to: seq<Member>)
    returns (r: Json)
    requires LeadsTo(doc, pointer, cs, loc) && At(doc, loc).Object?
    requires Fit(At(doc, loc), Object(to), cs) && EndsSafe(At(doc, loc).members, to, cs)
    ensures var from := At(doc, loc).members;
            var (doc', status) := EditAll(doc, CreatePatches(pointer, Object(from), Object(to), cs), cs);
            && (status == 0 ==> doc' == Put(doc, loc, r))
            && (status == 0 && Equal(r, Object(to), cs) <==> Untangled(from, to, cs) && PairsPatchable(from, to, cs))
    decreases MembersSize(At(doc, loc).members), 5 + |At(doc, loc).members| + |to|
  {
    hide Resolve, Fit, EditAll, At, Put, CreatePatches, MemberPatches, Sort, Equal, EndsSafe, PairsPatchable, Ends;
    hide LoopInv;
    hide Walks, Distinct, Balanced, AllDue;
    var from := At(doc, loc).members;
    var a := Aim(from, to, cs);
    var bound, l := MembersSize(from), Start(a);
    FitObjects(from, to, cs);
    LoopStarts(a);
    WalkStarts(a);
    SortedFits(from, to, cs);
    EndsSorted(from, to, cs);
    ObjectPatches(pointer, from, to, cs);
    assert AtLoop(doc, pointer, loc, a, l, bound);
    r := DiffMembers(doc, pointer, loc, a, l, bound);
    SortedPairs(from, to, cs);
    NothingPassed(cs);
  }

  lemma NothingPassed(cs: bool)
    ensures AllEqual([], [], cs)
  {}

  lemma FitObjects(from: seq<Member>, to: seq<Member>, cs: bool)
    requires Fit(Object(from), Object(to), cs)
    ensures Distinct(from, NameOf, cs) && Distinct(to, NameOf, cs)
  {}

  lemma {:induction false} Diff(doc: Json, pointer: cstring, cs: bool, loc: Path, to: Json) returns (r: Json)
    requires LeadsTo(doc, pointer, cs, loc) && !Mismatch(At(doc, loc), to)
    requires Fit(At(doc, loc), to, cs)
    ensures var (doc', status) := EditAll(doc, CreatePatches(pointer, At(doc, loc), to, cs), cs);
            && (status == 0 ==> doc' == Put(doc, loc, r))
            && (status == 0 && Equal(r, to, cs) <==> Patchable(At(doc, loc), to, cs))
    decreases Size(At(doc, loc)), 0
  {
    hide Resolve, Fit, EditAll, At, Put, CreatePatches, EndsSafe, PairsPatchable, Untangled, Equal, Patchable;
    hide ItemsEqual;
    hide ItemsPatchable, ItemPatches;
    var from := At(doc, loc);
    match from {
      case Array(items) =>
        var xs := DiffItems(doc, pointer, cs, loc, items, to.items, 0);
        ArrayPatches(pointer, items, to.items, cs);
        ArraysDiffer(xs, items, to.items, cs);
        r := Array(xs);
      case Object(members) =>
        ObjectPatchable(members, to.members, cs);
        if EndsSafe(members, to.members, cs) {
          r := DiffObjects(doc, pointer, cs, loc, to.members);
        } else {
          r := DiffSpoilt(doc, pointer, cs, loc, to.members);
        }
      case _ =>
        r := from;
        PutSame(doc, loc);
        NoPatches(pointer, from, to, cs);
        ApplyNone(doc, cs);
    }
  }

  lemma ArraysDiffer(r: seq<Json>, from: seq<Json>, to: seq<Json>, cs: bool)
    ensures ItemsEqual(r, to, 0, cs) <==> Equal(Array(r), Array(to), cs)
    ensures ItemsPatchable(from, to, 0, cs) <==> Patchable(Array(from), Array(to), cs)
  {}

  lemma ObjectPatchable(from: seq<Member>, to: seq<Member>, cs: bool)
    ensures Patchable(Object(from), Object(to), cs) <==>
            EndsSafe(from, to, cs) && Untangled(from, to, cs) && PairsPatchable(from, to, cs)
  {
    hide EndsSafe, Untangled, PairsPatchable;
  }

  lemma DiffSpoilt(doc: Json, pointer: cstring, cs: bool, loc: Path, to: seq<Member>) returns (r: Json)
    requires LeadsTo(doc, pointer, cs, loc) && At(doc, loc).Object?
    requires Fit(At(doc, loc), Object(to), cs) && !EndsSafe(At(doc, loc).members, to, cs)
    ensures var (doc', status) := EditAll(doc, CreatePatches(pointer, At(doc, loc), Object(to), cs), cs);
            status == 0 ==> doc' == Put(doc, loc, r) && !Equal(r, Object(to), cs)
  {
    hide Resolve, Fit, EditAll, At, Put, CreatePatches, Equal, Ends, DecodeSafe;
    var from := At(doc, loc).members;
    FitObjects(from, to, cs);
    var n :| n in Ends(from, to, cs) && !DecodeSafe(n);
    var ms := UnsafeEndSpoils(doc, pointer, cs, loc, from, to, n);
    r := Object(ms);
  }

  lemma ArrayPatches(path: cstring, from: seq<Json>, to: seq<Json>, cs: bool)
    ensures CreatePatches(path, Array(from), Array(to), cs) == ItemPatches(path, from, to, 0, cs)
  {
    hide ItemPatches;
  }

  lemma NoPatches(path: cstring, from: Json, to: Json, cs: bool)
    requires !Mismatch(from, to) && !from.Array? && !from.Object?
    ensures CreatePatches(path, from, to, cs) == [] && Equal(from, to, cs) && Patchable(from, to, cs)
  {}

  /** The promise of JSON Patch, and exactly when it is kept: for any two documents with distinct names,
      every patch of create_patches(from, to) succeeds in turn, and they make `from` equal to `to`, if and
      only if every name that ends a path survives decoding and no removal takes the wrong namesake. */
  lemma PatchRoundTrip(from: Json, to: Json, cs: bool)
    requires DistinctNames(from, cs) && Addressable(from) && DistinctNames(to, cs)
    ensures var (r, status) := EditAll(from, CreatePatches([], from, to, cs), cs);
            status == 0 && Equal(r, to, cs) <==> Patchable(from, to, cs)
  {
    hide Equal, DistinctNames, Addressable, CreatePatches, EditAll;
    if Mismatch(from, to) {
      EqualReflexive(to, cs);
      MismatchPatches([], from, to, cs);
      ReplaceRoot(from, to, cs);
    } else {
      var r := Diff(from, [], cs, [], to);
    }
  }

  lemma ReplaceRoot(from: Json, to: Json, cs: bool)
    ensures EditAll(from, [Compose(REPLACE, [], None, Some(to))], cs) == (to, 0)
  {
    var patch := Compose(REPLACE, [], None, Some(to));
    ComposedMembers(REPLACE, [], None, Some(to), cs);
    hide GetMember, Compose;
    EditAllOne(from, patch, to, cs);
  }

}
