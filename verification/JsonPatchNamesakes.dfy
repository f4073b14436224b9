/**
  Members whose names differ in case only: which of them a removal takes, and how many there are at each
  point of the walk over two sorted objects.
*/
module JsonPatchNamesakes {
  import opened CTypes
  import opened Names
  import opened Numerals
  import opened Sorting
  import opened Json
  import opened JsonPointer
  import opened JsonPatch
  import opened JsonPatchLaws
  import opened JsonPatchDecode
  import opened JsonPatchMisled

  /** The members of a name without regard to case, in their order. */
  function Namesakes(ms: seq<Member>, key: cstring): seq<Member> {
    if ms == [] then [] else (if Fold(ms[0].name) == key then [ms[0]] else []) + Namesakes(ms[1..], key)
  }

  lemma {:induction false} NamesakesAppend(a: seq<Member>, b: seq<Member>, key: cstring)
    ensures Namesakes(a + b, key) == Namesakes(a, key) + Namesakes(b, key)
    decreases |a|
  {
    hide Fold;
    if a == [] {
      assert a + b == b;
    } else {
      assert (a + b)[1..] == a[1..] + b;
      NamesakesAppend(a[1..], b, key);
    }
  }

  lemma NamesakesOne(m: Member, key: cstring)
    ensures Namesakes([m], key) == if Fold(m.name) == key then [m] else []
  {
    hide Fold;
    assert [m][1..] == [];
  }

  lemma {:induction false} NamesakesIn(ms: seq<Member>, key: cstring)
    ensures forall m :: m in Namesakes(ms, key) <==> m in ms && Fold(m.name) == key
  {
    hide Fold;
    if ms != [] {
      NamesakesIn(ms[1..], key);
      assert ms == [ms[0]] + ms[1..];
    }
  }

  lemma NamesakesWithout(ms: seq<Member>, k: nat, key: cstring)
    requires k < |ms|
    ensures Fold(ms[k].name) != key ==> Namesakes(Without(ms, k), key) == Namesakes(ms, key)
    ensures Fold(ms[k].name) == key ==> |Namesakes(Without(ms, k), key)| == |Namesakes(ms, key)| - 1
  {
    hide Fold, Namesakes;
    assert ms == ms[..k] + ([ms[k]] + ms[k + 1..]);
    NamesakesAppend(ms[..k], [ms[k]] + ms[k + 1..], key);
    NamesakesAppend([ms[k]], ms[k + 1..], key);
    NamesakesAppend(ms[..k], ms[k + 1..], key);
    NamesakesOne(ms[k], key);
  }

  /** A removal takes the first of them. */
  lemma {:induction false} NamesakesFirst(ms: seq<Member>, name: cstring)
    ensures var g, r := Namesakes(ms, Fold(name)), Lookup(ms, name, false);
            && (r.None? <==> g == [])
            && (r.Some? ==> ms[r.value] == g[0] && Namesakes(Without(ms, r.value), Fold(name)) == g[1..])
  {
    hide Fold;
    if ms != [] {
      NamesakesFirst(ms[1..], name);
      if Fold(ms[0].name) == Fold(name) {
        assert Without(ms, 0) == ms[1..];
      } else if Lookup(ms[1..], name, false).Some? {
        var i := Lookup(ms[1..], name, false).value;
        assert Without(ms, i + 1)[0] == ms[0] && Without(ms, i + 1)[1..] == Without(ms[1..], i);
      }
    }
  }

  predicate SameNames(a: seq<Member>, b: seq<Member>) {
    |a| == |b| && forall i :: 0 <= i < |b| ==> a[i].name == b[i].name
  }

  lemma {:induction false} NamesakesNames(a: seq<Member>, b: seq<Member>, key: cstring)
    requires SameNames(a, b)
    ensures SameNames(Namesakes(a, key), Namesakes(b, key))
    decreases |a|
  {
    hide Fold;
    if a != [] { NamesakesNames(a[1..], b[1..], key); }
  }

  lemma FirstName(ms: seq<Member>, cs: bool)
    requires ms != [] && Distinct(ms, NameOf, cs)
    ensures forall m :: m in ms[1..] ==> m.name != ms[0].name
  {
    hide Key;
    SameKeyReflexive(ms[0].name, cs);
    forall m | m in ms[1..]
      ensures m.name != ms[0].name
    {
      var b :| 0 <= b < |ms| - 1 && ms[1..][b] == m;
      assert !SameKey(NameOf(ms[0]), NameOf(ms[b + 1]), cs);
    }
  }

  lemma {:induction false} NamesakesDistinct(ms: seq<Member>, key: cstring, i: nat, j: nat, cs: bool)
    requires Distinct(ms, NameOf, cs) && i < |Namesakes(ms, key)| && j < |Namesakes(ms, key)|
    requires Namesakes(ms, key)[i].name == Namesakes(ms, key)[j].name
    ensures i == j
    decreases |ms|
  {
    hide Fold, Key;
    var first := Fold(ms[0].name) == key;
    var g := Namesakes(ms[1..], key);
    forall a, b | 0 <= a < b < |ms| - 1
      ensures !SameKey(NameOf(ms[1..][a]), NameOf(ms[1..][b]), cs)
    {
      assert !SameKey(NameOf(ms[a + 1]), NameOf(ms[b + 1]), cs);
    }
    if first && i != j && (i == 0 || j == 0) {
      FirstName(ms, cs);
      NamesakesIn(ms[1..], key);
    } else if !(i == 0 && j == 0 && first) {
      NamesakesDistinct(ms[1..], key, if first then i - 1 else i, if first then j - 1 else j, cs);
    }
  }

  // ---- Counting ----

  lemma {:induction false} NamesakesBag(ms: seq<Member>, key: cstring, m: Member)
    ensures multiset(Namesakes(ms, key))[m] == if Fold(m.name) == key then multiset(ms)[m] else 0
    decreases |ms|
  {
    hide Fold;
    if ms != [] {
      NamesakesBag(ms[1..], key, m);
      assert ms == [ms[0]] + ms[1..];
    }
  }

  lemma NamesakesPermuted(a: seq<Member>, b: seq<Member>, key: cstring)
    requires multiset(a) == multiset(b)
    ensures multiset(Namesakes(a, key)) == multiset(Namesakes(b, key))
    ensures |Namesakes(a, key)| == |Namesakes(b, key)|
  {
    hide Fold, Namesakes;
    forall m: Member
      ensures multiset(Namesakes(a, key))[m] == multiset(Namesakes(b, key))[m]
    {
      NamesakesBag(a, key, m);
      NamesakesBag(b, key, m);
    }
    assert multiset(Namesakes(a, key)) == multiset(Namesakes(b, key));
    assert |multiset(Namesakes(a, key))| == |multiset(Namesakes(b, key))|;
  }

  /** How many of the members are removed or replaced as a whole. */
  function CountChanged(ms: seq<Member>, to: seq<Member>, cs: bool): (r: nat)
    ensures r <= |ms|
  {
    if ms == [] then 0 else CountChanged(ms[1..], to, cs) + if Changed(ms[0], to, cs) then 1 else 0
  }

  lemma {:induction false} CountAppend(a: seq<Member>, b: seq<Member>, to: seq<Member>, cs: bool)
    ensures CountChanged(a + b, to, cs) == CountChanged(a, to, cs) + CountChanged(b, to, cs)
    decreases |a|
  {
    hide Changed;
    if a == [] {
      assert a + b == b;
    } else {
      assert (a + b)[1..] == a[1..] + b;
      CountAppend(a[1..], b, to, cs);
    }
  }

  lemma TakeOne(a: seq<Member>, b: seq<Member>, k: nat)
    requires a != [] && k < |b| && b[k] == a[0] && multiset(a) == multiset(b)
    ensures multiset(a[1..]) == multiset(Without(b, k))
  {
    assert a == [a[0]] + a[1..];
    assert b == b[..k] + [b[k]] + b[k + 1..];
    assert multiset(b) == multiset(b[..k]) + multiset{b[k]} + multiset(b[k + 1..]);
    assert multiset(Without(b, k)) == multiset(b[..k]) + multiset(b[k + 1..]);
    assert multiset(a) == multiset{a[0]} + multiset(a[1..]);
    forall m: Member
      ensures multiset(a[1..])[m] == multiset(Without(b, k))[m]
    {
      assert multiset(a)[m] == multiset(b)[m];
      assert multiset(a)[m] == multiset{a[0]}[m] + multiset(a[1..])[m];
    }
  }

  lemma CountWithout(b: seq<Member>, k: nat, to: seq<Member>, cs: bool)
    requires k < |b|
    ensures CountChanged(b, to, cs) == CountChanged(Without(b, k), to, cs) + if Changed(b[k], to, cs) then 1 else 0
  {
    hide Changed;
    assert b == b[..k] + ([b[k]] + b[k + 1..]) && ([b[k]] + b[k + 1..])[1..] == b[k + 1..];
    CountAppend(b[..k], [b[k]] + b[k + 1..], to, cs);
    CountAppend(b[..k], b[k + 1..], to, cs);
  }

  lemma {:induction false} CountPermuted(a: seq<Member>, b: seq<Member>, to: seq<Member>, cs: bool)
    requires multiset(a) == multiset(b)
    ensures CountChanged(a, to, cs) == CountChanged(b, to, cs)
    decreases |a|
  {
    hide Changed;
    if a == [] {
      assert |multiset(b)| == 0;
    } else {
      assert a[0] in multiset(a);
      var k := Occurrence(b, a[0]);
      TakeOne(a, b, k);
      CountWithout(b, k, to, cs);
      CountPermuted(a[1..], Without(b, k), to, cs);
    }
  }

  lemma {:induction false} CountAll(ms: seq<Member>, to: seq<Member>, cs: bool)
    ensures CountChanged(ms, to, cs) == |ms| <==> forall i :: 0 <= i < |ms| ==> Changed(ms[i], to, cs)
    ensures CountChanged(ms, to, cs) == 0 <==> forall i :: 0 <= i < |ms| ==> !Changed(ms[i], to, cs)
  {
    hide Changed;
    if ms != [] {
      CountAll(ms[1..], to, cs);
      assert forall i :: 0 < i < |ms| ==> ms[i] == ms[1..][i - 1];
      assert forall i :: 0 <= i < |ms| - 1 ==> ms[1..][i] == ms[i + 1];
    }
  }

  // ---- Which namesake a removal takes ----

  /** How many namesakes the patches have removed or replaced before. */
  function Turns(past: seq<Member>, to: seq<Member>, key: cstring, cs: bool): nat {
    CountChanged(Namesakes(past, key), to, cs)
  }

  /** Removals take namesakes from the front, whatever name was meant. When the patches come to a member
      to be removed or replaced, the namesake at the front must itself be one of those, and a member to
      be replaced must be that one or one taken before: it is added again then, and must not be there. */
  ghost predicate Due(from: seq<Member>, to: seq<Member>, past: seq<Member>, m: Member, cs: bool) {
    var g, t := Namesakes(from, Fold(m.name)), Turns(past, to, Fold(m.name), cs);
    t < |g| && Changed(g[t], to, cs) && (NoKey(to, m.name, cs) || m in g[..t + 1])
  }

  /** The members of `from` still to come, in the order of names, are removed and replaced as meant. */
  ghost predicate AllDue(from: seq<Member>, to: seq<Member>, past: seq<Member>, rest: seq<Member>, cs: bool)
    decreases |rest|
  {
    rest == [] ||
    ((Changed(rest[0], to, cs) ==> Due(from, to, past, rest[0], cs)) &&
     AllDue(from, to, past + [rest[0]], rest[1..], cs))
  }

  /** Names that differ in case only do not mislead the patches from one object to another. */
  ghost predicate Untangled(from: seq<Member>, to: seq<Member>, cs: bool) {
    AllDue(from, to, [], Sort(from, NameOf, cs), cs)
  }

  lemma TurnsNext(past: seq<Member>, to: seq<Member>, m: Member, key: cstring, cs: bool)
    ensures Turns(past + [m], to, key, cs) ==
            Turns(past, to, key, cs) + if Fold(m.name) == key && Changed(m, to, cs) then 1 else 0
  {
    hide Fold, Changed, Namesakes;
    NamesakesAppend(past, [m], key);
    NamesakesOne(m, key);
    CountAppend(Namesakes(past, key), Namesakes([m], key), to, cs);
    assert [m][1..] == [];
    assert CountChanged([m], to, cs) == if Changed(m, to, cs) then 1 else 0;
  }

  lemma TurnsTotal(from: seq<Member>, past: seq<Member>, rest: seq<Member>, to: seq<Member>, key: cstring, cs: bool)
    requires multiset(past + rest) == multiset(from)
    ensures Turns(past, to, key, cs) <= CountChanged(Namesakes(from, key), to, cs)
    ensures rest == [] ==> Turns(past, to, key, cs) == CountChanged(Namesakes(from, key), to, cs)
  {
    hide Fold, Changed, Namesakes;
    NamesakesPermuted(past + rest, from, key);
    CountPermuted(Namesakes(past + rest, key), Namesakes(from, key), to, cs);
    NamesakesAppend(past, rest, key);
    CountAppend(Namesakes(past, key), Namesakes(rest, key), to, cs);
    if rest == [] { assert past + rest == past; }
  }

  // ---- How many namesakes there should be ----

  /** How many more members of the key the patches add than they remove. */
  function Owed(from: seq<Member>, to: seq<Member>, cs: bool, key: cstring): int
    decreases |from| + |to|
  {
    if from == [] && to == [] then 0
    else
      var (f, t) := Rest(from, to, cs);
      StepOwed(from, to, cs, key) + Owed(f, t, cs, key)
  }

  function StepOwed(from: seq<Member>, to: seq<Member>, cs: bool, key: cstring): int
    requires from != [] || to != []
  {
    var (f, t) := Rest(from, to, cs);
    if f == from then (if Fold(to[0].name) == key then 1 else 0)
    else if t == to then (if Fold(from[0].name) == key then -1 else 0)
    else 0
  }

  lemma {:induction false} OwedTotal(from: seq<Member>, to: seq<Member>, cs: bool, key: cstring)
    ensures |Namesakes(from, key)| + Owed(from, to, cs, key) == |Namesakes(to, key)|
    decreases |from| + |to|
  {
    hide Compare, Fold;
    if from != [] || to != [] {
      var (f, t) := Rest(from, to, cs);
      OwedTotal(f, t, cs, key);
      if f != from && t != to { PairFolds(from, to, cs); }
    }
  }

  lemma PairFolds(from: seq<Member>, to: seq<Member>, cs: bool)
    requires from != [] || to != []
    requires Rest(from, to, cs).0 != from && Rest(from, to, cs).1 != to
    ensures from != [] && to != [] && SameKey(from[0].name, to[0].name, cs) && Fold(from[0].name) == Fold(to[0].name)
  {
    hide Compare, Key, Fold;
    CompareOrder(from[0].name, to[0].name, from[0].name, cs);
    FoldedKeys(from[0].name, to[0].name, cs);
  }

  /** No more namesakes than the given number. */
  predicate AtMost(ms: seq<Member>, key: cstring, n: int) { |Namesakes(ms, key)| <= n }

  lemma DeleteCounts(ms: seq<Member>, name: cstring, cs: bool, key: cstring)
    ensures |Namesakes(DeleteMember(ms, name, cs), key)| ==
            |Namesakes(ms, key)| - if Lookup(ms, name, cs).Some? && Fold(name) == key then 1 else 0
  {
    hide Fold, Key, Namesakes;
    LookupFirst(ms, name, cs);
    var r := Lookup(ms, name, cs);
    if r.Some? {
      FoldedKeys(name, ms[r.value].name, cs);
      NamesakesWithout(ms, r.value, key);
    }
  }

  lemma AddCounts(ms: seq<Member>, m: Member, key: cstring)
    ensures |Namesakes(ms + [m], key)| == |Namesakes(ms, key)| + if Fold(m.name) == key then 1 else 0
  {
    hide Fold, Namesakes;
    NamesakesAppend(ms, [m], key);
    NamesakesOne(m, key);
  }

  lemma SameButCounts(was: seq<Member>, cur: seq<Member>, name: cstring, cs: bool, key: cstring)
    requires SameBut(was, cur, name, cs)
    ensures |Namesakes(cur, key)| == |Namesakes(was, key)|
  {
    hide Namesakes, Lookup;
    NamesakesNames(cur, was, key);
  }

  ghost predicate LeavesAtMost(doc: Json, doc': Json, loc: Path, key: cstring, n: int)
    requires ValidPath(doc, loc)
  {
    exists ms: seq<Member> :: doc' == Put(doc, loc, Object(ms)) && AtMost(ms, key, n)
  }

  lemma Leaves(doc: Json, doc': Json, loc: Path, ms: seq<Member>, key: cstring, n: int)
    requires ValidPath(doc, loc) && doc' == Put(doc, loc, Object(ms)) && AtMost(ms, key, n)
    ensures LeavesAtMost(doc, doc', loc, key, n)
  {
    hide AtMost;
  }

  lemma RemovalLeaves(doc: Json, pointer: cstring, cs: bool, loc: Path, name: cstring, key: cstring, n: int)
    requires LeadsTo(doc, pointer, cs, loc) && At(doc, loc).Object? && AtMost(At(doc, loc).members, key, n) &&
             DecodeSafe(name)
    ensures var (doc', status) := Edit(doc, Compose(REMOVE, pointer, Some(name), None), cs);
            status == 0 ==> LeavesAtMost(doc, doc', loc, key, n - if Fold(name) == key then 1 else 0)
  {
    hide Encode, Compose, Edit, DecodeSafe, Namesakes, Put, At, Resolve, Fold, Lookup;
    var cur := At(doc, loc).members;
    ApplyRemoveMember(doc, pointer, cs, loc, name);
    DeleteCounts(cur, name, false, key);
    var i := Lookup(cur, name, false);
    if i.Some? {
      var rest := Without(cur, i.value);
      Leaves(doc, Put(doc, loc, Object(rest)), loc, rest, key, n - if Fold(name) == key then 1 else 0);
    }
  }

  lemma AdditionLeaves(doc: Json, pointer: cstring, cs: bool, loc: Path, name: cstring, value: Json, key: cstring,
                       n: int)
    requires LeadsTo(doc, pointer, cs, loc) && At(doc, loc).Object? && AtMost(At(doc, loc).members, key, n) &&
             DecodeSafe(name)
    ensures var (doc', status) := Edit(doc, Compose(ADD, pointer, Some(name), Some(value)), cs);
            status == 0 ==> LeavesAtMost(doc, doc', loc, key, n + if Fold(name) == key then 1 else 0)
  {
    hide Encode, Compose, Edit, DecodeSafe, Namesakes, Put, At, Resolve, Fold, DeleteMember, Lookup;
    var cur := At(doc, loc).members;
    ApplyAddMember(doc, pointer, cs, loc, name, value);
    DeleteCounts(cur, name, cs, key);
    var rest := DeleteMember(cur, name, cs);
    AddCounts(rest, Member(name, value), key);
    Leaves(doc, Put(doc, loc, Object(rest + [Member(name, value)])), loc, rest + [Member(name, value)], key,
           n + if Fold(name) == key then 1 else 0);
  }

  lemma ReplacementLeaves(doc: Json, pointer: cstring, cs: bool, loc: Path, name: cstring, value: Json, key: cstring,
                          n: int)
    requires LeadsTo(doc, pointer, cs, loc) && At(doc, loc).Object? && AtMost(At(doc, loc).members, key, n) &&
             DecodeSafe(name)
    ensures var (doc', status) := Edit(doc, Compose(REPLACE, pointer + [SLASH] + Encode(name), None, Some(value)), cs);
            status == 0 ==> LeavesAtMost(doc, doc', loc, key, n)
  {
    hide Encode, Compose, Edit, DecodeSafe, Namesakes, Put, At, Resolve, Fold, DeleteMember, Lookup;
    var cur := At(doc, loc).members;
    ApplyReplaceMember(doc, pointer, cs, loc, name, value);
    DeletesFirst(cur, name);
    DeleteCounts(cur, name, false, key);
    var i := Lookup(cur, name, false);
    if i.Some? {
      var less := Without(cur, i.value);
      var rest := DeleteMember(less, name, cs);
      DeleteCounts(less, name, cs, key);
      AddCounts(rest, Member(name, value), key);
      Leaves(doc, Put(doc, loc, Object(rest + [Member(name, value)])), loc, rest + [Member(name, value)], key, n);
    }
  }

  lemma DeletesFirst(ms: seq<Member>, name: cstring)
    ensures Lookup(ms, name, false).Some? ==>
              DeleteMember(ms, name, false) == Without(ms, Lookup(ms, name, false).value)
  {
    hide Lookup;
  }

  /** One step of the walk adds no more namesakes than it should. */
  lemma StepLeaves(doc: Json, pointer: cstring, cs: bool, loc: Path, from: seq<Member>, to: seq<Member>, key: cstring,
                   n: int)
    requires LeadsTo(doc, pointer, cs, loc) && At(doc, loc).Object? && (from != [] || to != [])
    requires Ascending(from, NameOf, cs) && Ascending(to, NameOf, cs)
    requires forall x :: x in Ends(from, to, cs) ==> DecodeSafe(x)
    requires AtMost(At(doc, loc).members, key, n)
    ensures var (doc', status) := EditAll(doc, StepPatches(pointer, from, to, cs), cs);
            status == 0 ==> LeavesAtMost(doc, doc', loc, key, n + StepOwed(from, to, cs, key))
  {
    hide Encode, Compose, Edit, EditAll, DecodeSafe, AtMost, Put, At, Resolve, Compare, Ascending, Ends, Key, Fold;
    hide CreatePatches, Mismatch;
    hide LeavesAtMost;
    EndsStep(from, to, cs);
    var diff := if from == [] then 1 else if to == [] then -1 else Compare(from[0].name, to[0].name, cs);
    if diff == 0 {
      PairLeaves(doc, pointer, cs, loc, from[0], to[0], key, n);
    } else if diff < 0 {
      EditAllSingle(doc, Compose(REMOVE, pointer, Some(from[0].name), None), cs);
      RemovalLeaves(doc, pointer, cs, loc, from[0].name, key, n);
    } else {
      EditAllSingle(doc, Compose(ADD, pointer, Some(to[0].name), Some(to[0].value)), cs);
      AdditionLeaves(doc, pointer, cs, loc, to[0].name, to[0].value, key, n);
    }
  }

  lemma PairLeaves(doc: Json, pointer: cstring, cs: bool, loc: Path, x: Member, y: Member, key: cstring, n: int)
    requires LeadsTo(doc, pointer, cs, loc) && At(doc, loc).Object? && AtMost(At(doc, loc).members, key, n)
    requires Mismatch(x.value, y.value) ==> DecodeSafe(x.name)
    ensures var (doc', status) := EditAll(doc, CreatePatches(pointer + [SLASH] + Encode(x.name), x.value, y.value, cs),
                                          cs);
            status == 0 ==> LeavesAtMost(doc, doc', loc, key, n)
  {
    hide Encode, Compose, Edit, EditAll, DecodeSafe, Namesakes, Put, At, Resolve, CreatePatches, Mismatch, SameBut;
    var path := pointer + [SLASH] + Encode(x.name);
    if Mismatch(x.value, y.value) {
      MismatchPatches(path, x.value, y.value, cs);
      EditAllSingle(doc, Compose(REPLACE, path, None, Some(y.value)), cs);
      ReplacementLeaves(doc, pointer, cs, loc, x.name, y.value, key, n);
    } else {
      PatchesInside(path, x.value, y.value, cs);
      EditAllInside(doc, CreatePatches(path, x.value, y.value, cs), pointer, cs, loc, x.name);
      var (doc', status) := EditAll(doc, CreatePatches(path, x.value, y.value, cs), cs);
      if status == 0 {
        var ms: seq<Member> :| doc' == Put(doc, loc, Object(ms)) && SameBut(At(doc, loc).members, ms, x.name, cs);
        SameButCounts(At(doc, loc).members, ms, x.name, cs, key);
        Leaves(doc, doc', loc, ms, key, n);
      }
    }
  }

  lemma LeavesOn(doc: Json, doc': Json, pointer: cstring, cs: bool, loc: Path, key: cstring, n: int)
    requires LeadsTo(doc, pointer, cs, loc) && LeavesAtMost(doc, doc', loc, key, n)
    ensures LeadsTo(doc', pointer, cs, loc) && At(doc', loc).Object? && AtMost(At(doc', loc).members, key, n)
  {
    hide AtMost, Resolve, Put, At;
    var ms: seq<Member> :| doc' == Put(doc, loc, Object(ms)) && AtMost(ms, key, n);
    LeadsToAfterPut(doc, pointer, cs, loc, Object(ms));
  }

  lemma LeavesTwice(doc: Json, doc': Json, doc'': Json, loc: Path, key: cstring, n: int, n': int)
    requires ValidPath(doc, loc) && LeavesAtMost(doc, doc', loc, key, n)
    requires ValidPath(doc', loc) && LeavesAtMost(doc', doc'', loc, key, n')
    ensures LeavesAtMost(doc, doc'', loc, key, n')
  {
    hide AtMost, Put;
    var ms: seq<Member> :| doc' == Put(doc, loc, Object(ms)) && AtMost(ms, key, n);
    var ms': seq<Member> :| doc'' == Put(doc', loc, Object(ms')) && AtMost(ms', key, n');
    PutPut(doc, loc, Object(ms), Object(ms'));
  }

  /** A run that starts with too few namesakes ends with too few. */
  lemma {:induction false} RunLeaves(doc: Json, pointer: cstring, cs: bool, loc: Path, from: seq<Member>,
                                     to: seq<Member>,
                                     bound: nat, key: cstring, n: int)
    requires LeadsTo(doc, pointer, cs, loc) && At(doc, loc).Object?
    requires Ascending(from, NameOf, cs) && Ascending(to, NameOf, cs)
    requires forall x :: x in Ends(from, to, cs) ==> DecodeSafe(x)
    requires forall i :: 0 <= i < |from| ==> Size(from[i].value) <= bound
    requires AtMost(At(doc, loc).members, key, n)
    ensures var (doc', status) := EditAll(doc, MemberPatches(pointer, from, to, cs, bound), cs);
            status == 0 ==> LeavesAtMost(doc, doc', loc, key, n + Owed(from, to, cs, key))
    decreases |from| + |to|
  {
    hide Encode, Compose, Edit, AtMost, Put, At, Resolve, Compare, Ascending, CreatePatches, DecodeSafe, StepPatches;
    hide MemberPatches;
    hide StepOwed, Ends, LeavesAtMost;
    if from == [] && to == [] {
      NoMemberPatches(pointer, cs, bound);
      PutSame(doc, loc);
      Leaves(doc, doc, loc, At(doc, loc).members, key, n);
    } else {
      var (f, t) := Rest(from, to, cs);
      MemberPatchesStep(pointer, from, to, cs, bound);
      StepLeaves(doc, pointer, cs, loc, from, to, key, n);
      var first := StepPatches(pointer, from, to, cs);
      EditAllSplit(doc, first, MemberPatches(pointer, f, t, cs, bound), cs);
      var (doc', status) := EditAll(doc, first, cs);
      if status == 0 {
        var n' := n + StepOwed(from, to, cs, key);
        LeavesOn(doc, doc', pointer, cs, loc, key, n');
        EndsShrink(from, to, cs);
        StepApart(from, to, cs);
        RunLeaves(doc', pointer, cs, loc, f, t, bound, key, n');
        var (doc'', status') := EditAll(doc', MemberPatches(pointer, f, t, cs, bound), cs);
        if status' == 0 { LeavesTwice(doc, doc', doc'', loc, key, n', n + Owed(from, to, cs, key)); }
      }
    }
  }
}
