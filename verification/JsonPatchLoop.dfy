/**
  The object loop of create_patches, as its patches change a member list: what it keeps as long as every
  removal takes a member that is to go, and what is lost for good once one does not.
*/
module JsonPatchLoop {
  import opened CTypes
  import opened Names
  import opened Numerals
  import opened Sorting
  import opened Json
  import opened JsonPointer
  import opened JsonPatch
  import opened JsonPatchLaws
  import opened JsonPatchDecode
  import opened JsonPatchMisled
  import opened JsonPatchNamesakes

  /** The two objects the patches were created from. */
  datatype Aim = Aim(from: seq<Member>, to: seq<Member>, cs: bool)

  /** Where the walk over both sorted lists stands: what it has passed, and what is still to come. Of the
      document's members the first p are its own; `done` is what became of those of `to` it has passed. */
  datatype Loop = Loop(p: nat, past: seq<Member>, from: seq<Member>, passed: seq<Member>, to: seq<Member>,
                       done: seq<Member>)

  // ---- Lists ----

  predicate HasMember(members: seq<Member>, p: nat, m: Member)
    requires p <= |members|
  {
    exists k :: 0 <= k < p && members[k] == m
  }

  function SkipTo(j: nat, k: nat): nat
    requires j != k
  {
    if j < k then j else j - 1
  }

  lemma WithoutAt<T>(s: seq<T>, k: nat, j: nat)
    requires k < |s| && j < |s| && j != k
    ensures Without(s, k)[SkipTo(j, k)] == s[j]
  {}

  lemma DistinctWithout(s: seq<Member>, k: nat, cs: bool)
    requires k < |s| && Distinct(s, NameOf, cs)
    ensures Distinct(Without(s, k), NameOf, cs)
    ensures Lookup(Without(s, k), s[k].name, cs).None?
  {
    hide Key;
    var t := Without(s, k);
    forall i, j | 0 <= i < j < |t|
      ensures !SameKey(NameOf(t[i]), NameOf(t[j]), cs)
    {
      var i', j' := if i < k then i else i + 1, if j < k then j else j + 1;
      assert t[i] == s[i'] && t[j] == s[j'];
      assert !SameKey(NameOf(s[i']), NameOf(s[j']), cs);
    }
    LookupFirst(t, s[k].name, cs);
    forall i | 0 <= i < |t|
      ensures !SameKey(s[k].name, t[i].name, cs)
    {
      var i' := if i < k then i else i + 1;
      assert t[i] == s[i'];
      assert i' < k ==> !SameKey(NameOf(s[i']), NameOf(s[k]), cs);
      assert k < i' ==> !SameKey(NameOf(s[k]), NameOf(s[i']), cs);
      SameKeySymmetric(s[i'].name, s[k].name, cs);
    }
  }

  lemma KeysDiffer(a: cstring, b: cstring, c: cstring, cs: bool)
    requires Compare(a, b, cs) != 0
    ensures !SameKey(a, b, cs) && !SameKey(b, a, cs)
    ensures SameKey(c, a, cs) ==> !SameKey(c, b, cs)
  {
    hide StrCmp;
    CompareOrder(a, b, a, cs);
  }

  /** The first of an ascending list is no other element's equal. */
  lemma FirstDiffers(from: seq<Member>, cs: bool, i: nat)
    requires Ascending(from, NameOf, cs) && 0 < i < |from|
    ensures Compare(from[0].name, from[i].name, cs) < 0 && from[i] != from[0]
  {
    hide Compare;
    AscendingOrdered(from, NameOf, cs, 0, i);
    CompareOrder(from[0].name, from[0].name, from[0].name, cs);
  }

  lemma MatchedOther(cur: seq<Member>, k: nat, d: Member, cs: bool) returns (j: nat)
    requires MatchedBy(cur, d, cs) && k < |cur| && !SameKey(cur[k].name, d.name, cs)
    ensures j < |cur| && j != k && SameKey(cur[j].name, d.name, cs) && Equal(cur[j].value, d.value, cs)
  {
    hide Key, Equal;
    j :| 0 <= j < |cur| && SameKey(cur[j].name, d.name, cs) && Equal(cur[j].value, d.value, cs);
  }

  lemma MatchedMore(m: Member, done: seq<Member>, t: Member, cs: bool)
    ensures Matched(m, done, cs) ==> Matched(m, done + [t], cs)
    ensures SameKey(m.name, t.name, cs) && Equal(m.value, t.value, cs) ==> Matched(m, done + [t], cs)
  {
    hide SameKey, Equal;
    if Matched(m, done, cs) {
      var j :| 0 <= j < |done| && SameKey(m.name, done[j].name, cs) && Equal(m.value, done[j].value, cs);
      assert (done + [t])[j] == done[j];
    }
    assert (done + [t])[|done|] == t;
  }

  lemma DistinctSnoc(s: seq<Member>, m: Member, cs: bool)
    requires Distinct(s, NameOf, cs) && forall k :: 0 <= k < |s| ==> !SameKey(s[k].name, m.name, cs)
    ensures Distinct(s + [m], NameOf, cs) && Lookup(s, m.name, cs).None?
  {
    hide Key;
    LookupFirst(s, m.name, cs);
    forall k | 0 <= k < |s|
      ensures !SameKey(m.name, s[k].name, cs)
    {
      SameKeySymmetric(m.name, s[k].name, cs);
    }
  }

  lemma SameNamesDistinct(s: seq<Member>, t: seq<Member>, cs: bool)
    requires Distinct(s, NameOf, cs) && SameNames(t, s)
    ensures Distinct(t, NameOf, cs)
  {
    hide Key;
    forall i, j | 0 <= i < j < |t|
      ensures !SameKey(NameOf(t[i]), NameOf(t[j]), cs)
    {
      assert !SameKey(NameOf(s[i]), NameOf(s[j]), cs);
    }
  }

  lemma MatchedAt(cur: seq<Member>, t: Member, cs: bool, k: nat)
    requires k < |cur| && SameKey(cur[k].name, t.name, cs) && Equal(cur[k].value, t.value, cs)
    ensures MatchedBy(cur, t, cs)
  {}

  lemma SameKeyAbove(a: cstring, b: cstring, c: cstring, cs: bool)
    requires SameKey(a, b, cs)
    ensures Compare(a, c, cs) == Compare(b, c, cs)
  {}

  lemma DoneBelow(done: seq<Member>, to: seq<Member>, cs: bool, i: nat)
    requires Ascending(done + to, NameOf, cs) && i < |done| && to != []
    ensures Compare(done[i].name, to[0].name, cs) < 0
  {
    hide Compare;
    AscendingOrdered(done + to, NameOf, cs, i, |done|);
  }

  lemma FromAbove(name: cstring, from: seq<Member>, cs: bool, i: nat)
    requires Ascending(from, NameOf, cs) && i < |from| && Compare(name, from[0].name, cs) < 0
    ensures Compare(name, from[i].name, cs) < 0
  {
    hide Compare;
    if i > 0 {
      FirstDiffers(from, cs, i);
      CompareOrder(name, from[0].name, from[i].name, cs);
    }
  }

  lemma AscendingSplit(s: seq<Member>, t: seq<Member>, cs: bool)
    requires Ascending(s + t, NameOf, cs)
    ensures Ascending(t, NameOf, cs)
  {
    hide Compare;
    forall i | 0 <= i < |t| - 1
      ensures Compare(NameOf(t[i]), NameOf(t[i + 1]), cs) < 0
    {
      assert (s + t)[|s| + i] == t[i] && (s + t)[|s| + i + 1] == t[i + 1];
    }
  }

  // ---- What the loop keeps ----

  /** Of the document's own members of a key, those are left that removals have not taken from the front,
      and all that have been taken were to be removed or replaced. */
  ghost predicate InStepAt(own: seq<Member>, a: Aim, past: seq<Member>, key: cstring) {
    var t, g := Turns(past, a.to, key, a.cs), Namesakes(a.from, key);
    && t <= |g| && SameNames(Namesakes(own, key), g[t..])
    && forall i :: 0 <= i < t ==> Changed(g[i], a.to, a.cs)
  }

  ghost predicate InStep(own: seq<Member>, a: Aim, past: seq<Member>) {
    forall key :: InStepAt(own, a, past, key)
  }

  /** What a member that was there from the start is now. */
  ghost predicate Stems(m: Member, y: Member, a: Aim, l: Loop) {
    m.name == y.name && if Changed(y, a.to, a.cs) || y in l.from then m == y else Matched(m, l.done, a.cs)
  }

  ghost predicate HasOrigin(m: Member, a: Aim, l: Loop) {
    exists y :: y in a.from && Stems(m, y, a, l)
  }

  /** A member still to be taken has not been replaced yet. */
  ghost predicate NotYet(m: Member, a: Aim, l: Loop) {
    forall y :: y in a.from && y.name == m.name && Changed(y, a.to, a.cs) ==> NoKey(l.done, y.name, a.cs)
  }

  ghost predicate OwnPart(cur: seq<Member>, a: Aim, l: Loop)
    requires l.p <= |cur|
  {
    && (forall k :: 0 <= k < l.p ==> HasOrigin(cur[k], a, l) && NotYet(cur[k], a, l))
    && (forall i :: 0 <= i < |l.from| && !Changed(l.from[i], a.to, a.cs) ==> HasMember(cur, l.p, l.from[i]))
  }

  ghost predicate DonePart(cur: seq<Member>, a: Aim, l: Loop)
    requires l.p <= |cur|
  {
    && (forall i :: 0 <= i < |l.done| ==> MatchedBy(cur, l.done[i], a.cs))
    && (forall k :: l.p <= k < |cur| ==> Matched(cur[k], l.done, a.cs))
    && (forall i, j :: 0 <= i < |l.done| && 0 <= j < |l.from| ==> Compare(l.done[i].name, l.from[j].name, a.cs) < 0)
  }

  ghost predicate LoopInv(cur: seq<Member>, a: Aim, l: Loop) {
    && l.p <= |cur| && Distinct(cur, NameOf, a.cs)
    && InStep(cur[..l.p], a, l.past) && OwnPart(cur, a, l) && DonePart(cur, a, l)
  }

  ghost predicate BalancedAt(cur: seq<Member>, a: Aim, l: Loop, key: cstring) {
    |Namesakes(cur, key)| + Owed(l.from, l.to, a.cs, key) == |Namesakes(a.to, key)|
  }

  ghost predicate Balanced(cur: seq<Member>, a: Aim, l: Loop) {
    forall key :: BalancedAt(cur, a, l, key)
  }

  /** What is known of the lists the walk is in. */
  ghost predicate Walks(a: Aim, l: Loop) {
    && Ascending(l.past + l.from, NameOf, a.cs) && Ascending(l.passed + l.to, NameOf, a.cs)
    && multiset(l.past + l.from) == multiset(a.from) && l.passed + l.to == Sort(a.to, NameOf, a.cs)
    && Distinct(a.from, NameOf, a.cs) && Distinct(a.to, NameOf, a.cs) && SameNames(l.done, l.passed)
    && (forall i :: 0 <= i < |l.from| ==> ToCome(a, l, l.from[i]))
    && (forall j :: 0 <= j < |l.to| && !HasKey(l.to[j].name, l.from, NameOf, a.cs) ==>
          !HasKey(l.to[j].name, a.from, NameOf, a.cs))
  }

  /** All counterparts of a member to come are to come. */
  ghost predicate ToCome(a: Aim, l: Loop, m: Member) {
    && (Changed(m, l.to, a.cs) <==> Changed(m, a.to, a.cs))
    && (NoKey(l.to, m.name, a.cs) <==> NoKey(a.to, m.name, a.cs))
  }

  lemma InSource(a: Aim, l: Loop)
    requires Walks(a, l)
    ensures forall m :: m in l.past || m in l.from ==> m in a.from
  {
    hide Ascending, Distinct, ToCome, HasKey;
    forall m | m in l.past || m in l.from
      ensures m in a.from
    {
      assert m in l.past + l.from;
      assert m in multiset(l.past + l.from);
      assert m in multiset(a.from);
    }
  }

  /** Members of one key in the mode used are one. */
  lemma SameMember(ms: seq<Member>, x: Member, y: Member, cs: bool)
    requires Distinct(ms, NameOf, cs) && x in ms && y in ms && SameKey(x.name, y.name, cs)
    ensures x == y
  {
    hide Key;
    var i :| 0 <= i < |ms| && ms[i] == x;
    var j :| 0 <= j < |ms| && ms[j] == y;
    DistinctIndex(ms, i, j, cs);
  }

  // ---- A namesake is taken ----

  /** There is one to take, and it is the one at the front. */
  lemma Front(cur: seq<Member>, a: Aim, l: Loop) returns (k: nat, y: Member)
    requires LoopInv(cur, a, l) && Walks(a, l) && l.from != [] && Changed(l.from[0], a.to, a.cs)
    ensures var key := Fold(l.from[0].name);
            var t, g := Turns(l.past, a.to, key, a.cs), Namesakes(a.from, key);
            && t < |g| && y == g[t] && y in a.from && Fold(y.name) == key
            && k < l.p && Lookup(cur, l.from[0].name, false) == Some(k) && cur[k].name == y.name
  {
    hide Fold, Key, Changed, Namesakes, OwnPart, DonePart, Ascending, Distinct, ToCome, HasKey;
    var x := l.from[0];
    var key := Fold(x.name);
    var t, g := Turns(l.past, a.to, key, a.cs), Namesakes(a.from, key);
    assert InStepAt(cur[..l.p], a, l.past, key);
    TurnsNext(l.past, a.to, x, key, a.cs);
    assert l.past + l.from == (l.past + [x]) + l.from[1..];
    TurnsTotal(a.from, l.past + [x], l.from[1..], a.to, key, a.cs);
    y := g[t];
    NamesakesIn(a.from, key);
    NamesakesFirst(cur[..l.p], x.name);
    k := FirstInPrefix(cur, l.p, x.name);
    assert Namesakes(cur[..l.p], key)[0].name == g[t..][0].name;
  }

  lemma FirstInPrefix(cur: seq<Member>, p: nat, name: cstring) returns (k: nat)
    requires p <= |cur| && Lookup(cur[..p], name, false).Some?
    ensures k < p && Lookup(cur[..p], name, false) == Some(k) == Lookup(cur, name, false)
  {
    hide SameKey;
    k := Lookup(cur[..p], name, false).value;
    LookupFirst(cur[..p], name, false);
    LookupFirst(cur, name, false);
    var r := Lookup(cur, name, false);
    assert forall i :: 0 <= i < p ==> cur[..p][i] == cur[i];
  }

  lemma SameNamesTail(n: seq<Member>, g: seq<Member>, t: nat)
    requires t < |g| && SameNames(n, g[t..])
    ensures n != [] && SameNames(n[1..], g[t + 1..])
  {
    assert forall i :: 0 <= i < |n| - 1 ==> n[1..][i] == n[i + 1] && g[t + 1..][i] == g[t..][i + 1];
  }

  lemma InStepTaken(own: seq<Member>, a: Aim, past: seq<Member>, x: Member, k: nat)
    requires InStep(own, a, past) && Changed(x, a.to, a.cs) && Lookup(own, x.name, false) == Some(k)
    requires var g, t := Namesakes(a.from, Fold(x.name)), Turns(past, a.to, Fold(x.name), a.cs);
             t < |g| && Changed(g[t], a.to, a.cs)
    ensures InStep(Without(own, k), a, past + [x])
  {
    hide Fold, Changed, Namesakes, Turns, SameNames, Lookup;
    NamesakesFirst(own, x.name);
    forall key
      ensures InStepAt(Without(own, k), a, past + [x], key)
    {
      assert InStepAt(own, a, past, key);
      TurnsNext(past, a.to, x, key, a.cs);
      var t, g := Turns(past, a.to, key, a.cs), Namesakes(a.from, key);
      if key == Fold(x.name) {
        SameNamesTail(Namesakes(own, key), g, t);
      } else {
        FoundFold(own, x.name);
        NamesakesWithout(own, k, key);
      }
    }
  }

  lemma FoundFold(ms: seq<Member>, name: cstring)
    ensures var r := Lookup(ms, name, false); r.Some? ==> Fold(ms[r.value].name) == Fold(name)
  {
    LookupFirst(ms, name, false);
  }

  lemma InStepSame(own: seq<Member>, next: seq<Member>, a: Aim, past: seq<Member>, x: Member)
    requires InStep(own, a, past) && SameNames(next, own) && !Changed(x, a.to, a.cs)
    ensures InStep(next, a, past + [x])
  {
    hide Fold, Changed, Namesakes, Turns;
    forall key
      ensures InStepAt(next, a, past + [x], key)
    {
      assert InStepAt(own, a, past, key);
      TurnsNext(past, a.to, x, key, a.cs);
      NamesakesNames(next, own, key);
    }
  }

  lemma StemsOn(m: Member, a: Aim, l: Loop, l': Loop)
    requires HasOrigin(m, a, l) && l.from != [] && l'.from == l.from[1..] && l'.done == l.done &&
             Changed(l.from[0], a.to, a.cs)
    ensures HasOrigin(m, a, l')
  {
    hide Changed, Matched;
    var y :| y in a.from && Stems(m, y, a, l);
    assert y in l.from && y !in l'.from ==> y == l.from[0];
    assert Stems(m, y, a, l');
  }

  lemma NotYetSame(m: Member, a: Aim, l: Loop, l': Loop)
    requires NotYet(m, a, l) && l'.done == l.done
    ensures NotYet(m, a, l')
  {
    hide Changed, NoKey;
  }

  /** A member that is to stay as it is in kind is not the one taken. */
  lemma StaysOwn(cur: seq<Member>, p: nat, a: Aim, x: Member, y: Member, k: nat)
    requires p <= |cur| && k < p && cur[k].name == y.name && y in a.from && x in a.from &&
             Distinct(a.from, NameOf, a.cs)
    requires HasMember(cur, p, x) && Changed(y, a.to, a.cs) && !Changed(x, a.to, a.cs)
    ensures HasMember(Without(cur, k), p - 1, x)
  {
    hide Changed, Key, Distinct;
    var j :| 0 <= j < p && cur[j] == x;
    if j == k {
      SameKeyReflexive(x.name, a.cs);
      SameMember(a.from, x, y, a.cs);
    }
    WithoutAt(cur, k, j);
    assert Without(cur, k)[SkipTo(j, k)] == x;
  }

  lemma OwnTaken(cur: seq<Member>, a: Aim, l: Loop, l': Loop, k: nat, y: Member)
    requires LoopInv(cur, a, l) && Walks(a, l) && l.from != [] && Changed(l.from[0], a.to, a.cs)
    requires k < l.p && cur[k].name == y.name && y in a.from && Changed(y, a.to, a.cs)
    requires l'.p == l.p - 1 && l'.from == l.from[1..] && l'.done == l.done
    ensures OwnPart(Without(cur, k), a, l')
  {
    hide Changed, Distinct, InStep, DonePart, HasOrigin, NotYet, HasMember, Ascending, ToCome, HasKey;
    var next := Without(cur, k);
    InSource(a, l);
    forall j | 0 <= j < l'.p
      ensures HasOrigin(next[j], a, l') && NotYet(next[j], a, l')
    {
      var j' := if j < k then j else j + 1;
      assert next[j] == cur[j'];
      StemsOn(cur[j'], a, l, l');
      NotYetSame(cur[j'], a, l, l');
    }
    forall i | 0 <= i < |l'.from| && !Changed(l'.from[i], a.to, a.cs)
      ensures HasMember(next, l'.p, l'.from[i])
    {
      assert l'.from[i] == l.from[i + 1];
      StaysOwn(cur, l.p, a, l'.from[i], y, k);
    }
  }

  lemma DoneTaken(cur: seq<Member>, a: Aim, l: Loop, l': Loop, k: nat, y: Member)
    requires LoopInv(cur, a, l) && l.from != []
    requires k < l.p && cur[k].name == y.name && y in a.from && Changed(y, a.to, a.cs)
    requires l'.p == l.p - 1 && l'.from == l.from[1..] && l'.done == l.done
    ensures DonePart(Without(cur, k), a, l')
  {
    hide Changed, Key, InStep, HasOrigin, HasMember, MatchedBy, Matched, Compare, Distinct;
    var next := Without(cur, k);
    assert NotYet(cur[k], a, l);
    forall i | 0 <= i < |l.done|
      ensures MatchedBy(next, l.done[i], a.cs)
    {
      SameKeySymmetric(cur[k].name, l.done[i].name, a.cs);
      var j := MatchedOther(cur, k, l.done[i], a.cs);
      WithoutAt(cur, k, j);
      MatchedAt(next, l.done[i], a.cs, SkipTo(j, k));
    }
    forall j | l'.p <= j < |next|
      ensures Matched(next[j], l.done, a.cs)
    {
      assert next[j] == cur[j + 1];
    }
    forall i, j | 0 <= i < |l.done| && 0 <= j < |l'.from|
      ensures Compare(l.done[i].name, l'.from[j].name, a.cs) < 0
    {
      assert l'.from[j] == l.from[j + 1];
    }
  }

  /** The loop after a member has been taken that was to be taken. */
  lemma StepTaken(cur: seq<Member>, a: Aim, l: Loop, l': Loop, k: nat, y: Member)
    requires LoopInv(cur, a, l) && Walks(a, l) && l.from != [] && Changed(l.from[0], a.to, a.cs)
    requires var key := Fold(l.from[0].name);
             var t, g := Turns(l.past, a.to, key, a.cs), Namesakes(a.from, key);
             t < |g| && y == g[t] && Changed(y, a.to, a.cs)
    requires y in a.from && k < l.p && cur[k].name == y.name && Lookup(cur, l.from[0].name, false) == Some(k)
    requires l'.p == l.p - 1 && l'.past == l.past + [l.from[0]] && l'.from == l.from[1..] && l'.done == l.done
    ensures LoopInv(Without(cur, k), a, l')
  {
    hide Changed, Key, Fold, Distinct, OwnPart, DonePart, Namesakes, Turns, Ascending, ToCome, HasKey, InStepAt, InStep;
    DistinctWithout(cur, k, a.cs);
    OwnTaken(cur, a, l, l', k, y);
    DoneTaken(cur, a, l, l', k, y);
    PrefixLookup(cur, l.p, l.from[0].name, k);
    InStepTaken(cur[..l.p], a, l.past, l.from[0], k);
    assert Without(cur, k)[..l'.p] == Without(cur[..l.p], k);
  }

  lemma PrefixLookup(cur: seq<Member>, p: nat, name: cstring, k: nat)
    requires k < p <= |cur| && Lookup(cur, name, false) == Some(k)
    ensures Lookup(cur[..p], name, false) == Some(k)
  {
    hide SameKey;
    LookupFirst(cur[..p], name, false);
    LookupFirst(cur, name, false);
  }

  // ---- A member is added ----

  lemma StemsMore(m: Member, a: Aim, l: Loop, l': Loop, t: Member)
    requires HasOrigin(m, a, l) && l'.from == l.from && l'.done == l.done + [t]
    ensures HasOrigin(m, a, l')
  {
    hide Changed, Matched;
    var y :| y in a.from && Stems(m, y, a, l);
    MatchedMore(m, l.done, t, a.cs);
    assert Stems(m, y, a, l');
  }

  lemma NotYetMore(m: Member, a: Aim, l: Loop, l': Loop, t: Member)
    requires NotYet(m, a, l) && !SameKey(t.name, m.name, a.cs) && l'.done == l.done + [t]
    ensures NotYet(m, a, l')
  {
    hide Changed, Key;
  }

  lemma OwnMore(cur: seq<Member>, a: Aim, l: Loop, l': Loop, m: Member, t: Member)
    requires l'.p == l.p && l'.from == l.from && l'.done == l.done + [t] && l.p <= |cur| && OwnPart(cur, a, l) &&
             SameKey(m.name, t.name, a.cs)
    requires forall k :: 0 <= k < |cur| ==> !SameKey(cur[k].name, m.name, a.cs)
    ensures OwnPart(cur + [m], a, l')
  {
    hide Changed, Key, HasOrigin, NotYet;
    var next := cur + [m];
    forall k | 0 <= k < l.p
      ensures HasOrigin(next[k], a, l') && NotYet(next[k], a, l')
    {
      assert next[k] == cur[k];
      StemsMore(cur[k], a, l, l', t);
      NotYetMore(cur[k], a, l, l', t);
    }
    forall i | 0 <= i < |l.from| && !Changed(l.from[i], a.to, a.cs)
      ensures HasMember(next, l.p, l.from[i])
    {
      assert HasMember(cur, l.p, l.from[i]);
      var k :| 0 <= k < l.p && cur[k] == l.from[i];
      assert next[k] == l.from[i];
    }
  }

  lemma DoneMore(cur: seq<Member>, a: Aim, l: Loop, l': Loop, m: Member, t: Member)
    requires l'.p == l.p && l'.from == l.from && l'.done == l.done + [t] && l.p <= |cur| && DonePart(cur, a, l) &&
             SameKey(m.name, t.name, a.cs) && Equal(m.value, t.value, a.cs)
    requires forall j :: 0 <= j < |l.from| ==> Compare(t.name, l.from[j].name, a.cs) < 0
    ensures DonePart(cur + [m], a, l')
  {
    hide Changed, Key, Equal, Compare, Matched;
    var next, done := cur + [m], l.done + [t];
    forall i | 0 <= i < |done|
      ensures MatchedBy(next, done[i], a.cs)
    {
      if i < |l.done| {
        assert MatchedBy(cur, l.done[i], a.cs);
        var k :| 0 <= k < |cur| && SameKey(cur[k].name, done[i].name, a.cs) && Equal(cur[k].value, done[i].value, a.cs);
        assert next[k] == cur[k];
      } else {
        MatchedAt(next, t, a.cs, |cur|);
      }
    }
    forall k | l.p <= k < |next|
      ensures Matched(next[k], done, a.cs)
    {
      MatchedMore(next[k], l.done, t, a.cs);
    }
  }

  /** The loop after a member has been added that nothing has the name of. */
  lemma StepAdded(cur: seq<Member>, a: Aim, l: Loop, l': Loop, m: Member, t: Member)
    requires l'.p == l.p && l'.past == l.past && l'.from == l.from && l'.done == l.done + [t]
    requires LoopInv(cur, a, l) && SameKey(m.name, t.name, a.cs) && Equal(m.value, t.value, a.cs)
    requires forall k :: 0 <= k < |cur| ==> !SameKey(cur[k].name, m.name, a.cs)
    requires forall j :: 0 <= j < |l.from| ==> Compare(t.name, l.from[j].name, a.cs) < 0
    ensures LoopInv(cur + [m], a, l')
  {
    hide Key, Equal, Compare, Distinct, InStep, OwnPart, DonePart;
    DistinctSnoc(cur, m, a.cs);
    OwnMore(cur, a, l, l', m, t);
    DoneMore(cur, a, l, l', m, t);
    assert (cur + [m])[..l.p] == cur[..l.p];
  }

  /** An added member's name is no member's. */
  lemma AddedAlone(cur: seq<Member>, a: Aim, l: Loop, name: cstring)
    requires LoopInv(cur, a, l) && !HasKey(name, a.from, NameOf, a.cs)
    requires forall i :: 0 <= i < |l.done| ==> Compare(l.done[i].name, name, a.cs) < 0
    ensures forall k :: 0 <= k < |cur| ==> !SameKey(cur[k].name, name, a.cs)
  {
    hide Key, Equal, Compare, Distinct, InStep, Changed, Stems, HasKey;
    forall k | 0 <= k < |cur|
      ensures !SameKey(cur[k].name, name, a.cs)
    {
      if SameKey(cur[k].name, name, a.cs) {
        if k < l.p {
          OwnNamed(cur, a, l, k, name);
        } else {
          DoneNamed(cur[k], l.done, name, a.cs);
        }
      }
    }
  }

  lemma OwnNamed(cur: seq<Member>, a: Aim, l: Loop, k: nat, name: cstring)
    requires LoopInv(cur, a, l) && k < l.p && SameKey(cur[k].name, name, a.cs)
    ensures HasKey(name, a.from, NameOf, a.cs)
  {
    hide Key, Equal, Compare, Distinct, InStep, Changed, DonePart;
    assert HasOrigin(cur[k], a, l);
    var y :| y in a.from && Stems(cur[k], y, a, l);
    var i :| 0 <= i < |a.from| && a.from[i] == y;
    SameKeySymmetric(y.name, name, a.cs);
    HasKeyAt(name, a.from, i, a.cs);
  }

  lemma DoneNamed(m: Member, done: seq<Member>, name: cstring, cs: bool)
    requires Matched(m, done, cs) && forall i :: 0 <= i < |done| ==> Compare(done[i].name, name, cs) < 0
    ensures !SameKey(m.name, name, cs)
  {
    hide Key, Equal, Compare;
    var i :| 0 <= i < |done| && SameKey(m.name, done[i].name, cs) && Equal(m.value, done[i].value, cs);
    KeysDiffer(done[i].name, name, m.name, cs);
  }

  // ---- A member is replaced ----

  /** Whether a replaced member is still there when it is added again. */
  lemma ReplacedGone(cur: seq<Member>, a: Aim, l: Loop, x: Member)
    requires LoopInv(cur, a, l) && x in a.from && Distinct(a.from, NameOf, a.cs)
    requires forall i :: 0 <= i < |l.done| ==> Compare(l.done[i].name, x.name, a.cs) < 0
    requires var t, g := Turns(l.past, a.to, Fold(x.name), a.cs), Namesakes(a.from, Fold(x.name));
             t <= |g| && x in g[..t]
    ensures forall k :: 0 <= k < |cur| ==> !SameKey(cur[k].name, x.name, a.cs)
  {
    hide Key, Fold, Equal, Compare, Distinct, Changed, Turns, Namesakes, InStep;
    forall k | 0 <= k < |cur|
      ensures !SameKey(cur[k].name, x.name, a.cs)
    {
      if SameKey(cur[k].name, x.name, a.cs) {
        if k < l.p {
          OwnIs(cur, a, l, k, x);
          NotBoth(cur, a, l, k, x);
        } else {
          DoneNamed(cur[k], l.done, x.name, a.cs);
        }
      }
    }
  }

  lemma OwnIs(cur: seq<Member>, a: Aim, l: Loop, k: nat, x: Member)
    requires LoopInv(cur, a, l) && k < l.p && SameKey(cur[k].name, x.name, a.cs) && x in a.from &&
             Distinct(a.from, NameOf, a.cs)
    ensures cur[k].name == x.name
  {
    hide Key, Equal, Compare, Distinct, InStep, Changed, DonePart;
    assert HasOrigin(cur[k], a, l);
    var y :| y in a.from && Stems(cur[k], y, a, l);
    SameMember(a.from, y, x, a.cs);
  }

  /** A member of the document's own is one of the namesakes that have not been taken. */
  lemma OwnPlace(cur: seq<Member>, a: Aim, l: Loop, k: nat) returns (i: nat)
    requires LoopInv(cur, a, l) && k < l.p
    ensures var t, g := Turns(l.past, a.to, Fold(cur[k].name), a.cs), Namesakes(a.from, Fold(cur[k].name));
            t <= i < |g| && g[i].name == cur[k].name && forall j :: 0 <= j < t ==> Changed(g[j], a.to, a.cs)
  {
    hide Key, Fold, Distinct, Changed, Turns, OwnPart, DonePart, Namesakes;
    var key := Fold(cur[k].name);
    var t, g := Turns(l.past, a.to, key, a.cs), Namesakes(a.from, key);
    assert InStepAt(cur[..l.p], a, l.past, key);
    NamesakesIn(cur[..l.p], key);
    assert cur[..l.p][k] == cur[k];
    var n := Namesakes(cur[..l.p], key);
    assert cur[k] in n;
    var q :| 0 <= q < |n| && n[q] == cur[k];
    i := t + q;
    assert g[t..][q] == g[i];
  }

  lemma NotBoth(cur: seq<Member>, a: Aim, l: Loop, k: nat, x: Member)
    requires LoopInv(cur, a, l) && k < l.p && cur[k].name == x.name && Distinct(a.from, NameOf, a.cs)
    ensures var t, g := Turns(l.past, a.to, Fold(x.name), a.cs), Namesakes(a.from, Fold(x.name));
            t <= |g| && x !in g[..t]
  {
    hide Key, Fold, Distinct, Changed, Turns, LoopInv, Namesakes;
    var t, g := Turns(l.past, a.to, Fold(x.name), a.cs), Namesakes(a.from, Fold(x.name));
    var i := OwnPlace(cur, a, l, k);
    if j :| 0 <= j < t && g[..t][j] == x {
      NamesakesDistinct(a.from, Fold(x.name), j, i, a.cs);
    }
  }

  /** A namesake that has not been taken is one of the document's own members. */
  lemma NotTaken(cur: seq<Member>, a: Aim, l: Loop, key: cstring, j: nat) returns (k: nat)
    requires LoopInv(cur, a, l) && Turns(l.past, a.to, key, a.cs) <= j < |Namesakes(a.from, key)|
    ensures k < l.p <= |cur| && cur[k].name == Namesakes(a.from, key)[j].name
  {
    hide Key, Fold, Distinct, Changed, Turns, OwnPart, DonePart, Namesakes;
    var t, g := Turns(l.past, a.to, key, a.cs), Namesakes(a.from, key);
    assert InStepAt(cur[..l.p], a, l.past, key);
    var n := Namesakes(cur[..l.p], key);
    assert n[j - t].name == g[t..][j - t].name;
    NamesakesIn(cur[..l.p], key);
    assert n[j - t] in n;
    k :| 0 <= k < l.p && cur[..l.p][k] == n[j - t];
  }

  lemma ReplacedStays(cur: seq<Member>, a: Aim, l: Loop, x: Member)
    requires LoopInv(cur, a, l) && x in a.from
    requires var t, g := Turns(l.past, a.to, Fold(x.name), a.cs), Namesakes(a.from, Fold(x.name));
             t <= |g| && x !in g[..t]
    ensures Lookup(cur, x.name, a.cs).Some?
  {
    hide Key, Fold, LoopInv, Turns, Namesakes;
    var key := Fold(x.name);
    var t, g := Turns(l.past, a.to, key, a.cs), Namesakes(a.from, key);
    NamesakesIn(a.from, key);
    assert x in g;
    var j :| 0 <= j < |g| && g[j] == x;
    assert forall i :: 0 <= i < t ==> g[..t][i] == g[i];
    var k := NotTaken(cur, a, l, key, j);
    LookupFirst(cur, x.name, a.cs);
    SameKeyReflexive(x.name, a.cs);
  }

  // ---- A member is changed in place ----

  lemma InRest(s: seq<Member>, y: Member)
    requires y in s && y != s[0]
    ensures y in s[1..]
  {
    var i :| 0 <= i < |s| && s[i] == y;
    assert s[1..][i - 1] == y;
  }

  lemma StemsInPlace(m: Member, a: Aim, l: Loop, l': Loop, t: Member)
    requires HasOrigin(m, a, l) && l.from != [] && m.name != l.from[0].name
    requires l'.from == l.from[1..] && l'.done == l.done + [t]
    ensures HasOrigin(m, a, l')
  {
    hide Changed, Matched;
    var y :| y in a.from && Stems(m, y, a, l);
    MatchedMore(m, l.done, t, a.cs);
    if y in l.from { InRest(l.from, y); }
    assert Stems(m, y, a, l');
  }

  lemma NewOrigin(m: Member, x: Member, a: Aim, l: Loop)
    requires x in a.from && m.name == x.name && !Changed(x, a.to, a.cs) && x !in l.from && Matched(m, l.done, a.cs)
    ensures HasOrigin(m, a, l)
  {
    hide Changed, Matched;
    assert Stems(m, x, a, l);
  }

  lemma NotYetInPlace(m: Member, x: Member, a: Aim, l: Loop, l': Loop, t: Member)
    requires NotYet(m, a, l) && l'.done == l.done + [t] && SameKey(x.name, t.name, a.cs)
    requires x in a.from && !Changed(x, a.to, a.cs) && Distinct(a.from, NameOf, a.cs)
    ensures NotYet(m, a, l')
  {
    hide Changed, Key, Distinct;
    forall y | y in a.from && y.name == m.name && Changed(y, a.to, a.cs)
      ensures NoKey(l'.done, y.name, a.cs)
    {
      if SameKey(t.name, y.name, a.cs) { SameMember(a.from, x, y, a.cs); }
    }
  }

  lemma OtherName(cur: seq<Member>, j: nat, k: nat, cs: bool)
    requires Distinct(cur, NameOf, cs) && j < |cur| && k < |cur| && j != k
    ensures cur[j].name != cur[k].name
  {
    hide Key;
    SameKeyReflexive(cur[k].name, cs);
    if cur[j].name == cur[k].name { DistinctIndex(cur, j, k, cs); }
  }

  lemma OwnInPlace(cur: seq<Member>, a: Aim, l: Loop, l': Loop, k: nat, v: Json, t: Member)
    requires LoopInv(cur, a, l) && Walks(a, l) && l.from != [] && !Changed(l.from[0], a.to, a.cs)
    requires k < l.p && cur[k] == l.from[0] && SameKey(l.from[0].name, t.name, a.cs) && Equal(v, t.value, a.cs)
    requires l'.p == l.p && l'.from == l.from[1..] && l'.done == l.done + [t]
    ensures OwnPart(cur[k := Member(cur[k].name, v)], a, l')
  {
    hide Changed, Key, Equal, Distinct, InStep, DonePart, HasOrigin, NotYet, Ascending, ToCome, HasKey, Matched;
    var m := Member(cur[k].name, v);
    var next, x := cur[k := m], l.from[0];
    InSource(a, l);
    FirstOnce(l, a);
    MatchedMore(m, l.done, t, a.cs);
    forall j | 0 <= j < l.p
      ensures HasOrigin(next[j], a, l') && NotYet(next[j], a, l')
    {
      NotYetInPlace(cur[j], x, a, l, l', t);
      if j == k {
        NewOrigin(m, x, a, l');
        NotYetName(cur[k], m, a, l');
      } else {
        OtherName(cur, j, k, a.cs);
        StemsInPlace(cur[j], a, l, l', t);
      }
    }
    forall i | 0 <= i < |l'.from| && !Changed(l'.from[i], a.to, a.cs)
      ensures HasMember(next, l.p, l'.from[i])
    {
      assert l'.from[i] == l.from[i + 1] && l'.from[i] in l'.from;
      assert HasMember(cur, l.p, l.from[i + 1]);
      var j :| 0 <= j < l.p && cur[j] == l'.from[i];
      assert next[j] == l'.from[i];
    }
  }

  lemma NotYetName(m: Member, m': Member, a: Aim, l: Loop)
    requires NotYet(m, a, l) && m'.name == m.name
    ensures NotYet(m', a, l)
  {
    hide Changed, NoKey;
  }

  lemma FirstOnce(l: Loop, a: Aim)
    requires Walks(a, l) && l.from != []
    ensures l.from[0] !in l.from[1..]
  {
    hide Compare, ToCome, HasKey, Distinct;
    AscendingSplit(l.past, l.from, a.cs);
    if l.from[0] in l.from[1..] {
      var i :| 0 <= i < |l.from| - 1 && l.from[1..][i] == l.from[0];
      FirstDiffers(l.from, a.cs, i + 1);
    }
  }

  lemma DoneInPlace(cur: seq<Member>, a: Aim, l: Loop, l': Loop, k: nat, v: Json, t: Member)
    requires LoopInv(cur, a, l) && Walks(a, l) && l.from != []
    requires k < l.p && cur[k] == l.from[0] && SameKey(l.from[0].name, t.name, a.cs) && Equal(v, t.value, a.cs)
    requires l'.p == l.p && l'.from == l.from[1..] && l'.done == l.done + [t]
    ensures DonePart(cur[k := Member(cur[k].name, v)], a, l')
  {
    hide Changed, Key, Equal, Distinct, InStep, OwnPart, Ascending, ToCome, HasKey, Matched, MatchedBy, Compare;
    var next := cur[k := Member(cur[k].name, v)];
    AscendingSplit(l.past, l.from, a.cs);
    forall i | 0 <= i < |l'.done|
      ensures MatchedBy(next, l'.done[i], a.cs)
    {
      if i < |l.done| {
        KeysDiffer(l.done[i].name, cur[k].name, l.done[i].name, a.cs);
        var j := MatchedOther(cur, k, l.done[i], a.cs);
        MatchedAt(next, l.done[i], a.cs, j);
      } else {
        MatchedAt(next, t, a.cs, k);
      }
    }
    forall j | l.p <= j < |next|
      ensures Matched(next[j], l'.done, a.cs)
    {
      MatchedMore(cur[j], l.done, t, a.cs);
    }
    forall i, j | 0 <= i < |l'.done| && 0 <= j < |l'.from|
      ensures Compare(l'.done[i].name, l'.from[j].name, a.cs) < 0
    {
      assert l'.from[j] == l.from[j + 1];
      if i == |l.done| {
        FirstDiffers(l.from, a.cs, j + 1);
        SameKeyAbove(l.from[0].name, t.name, l.from[j + 1].name, a.cs);
      }
    }
  }

  /** The loop after the value of a member has been changed in place. */
  lemma StepInPlace(cur: seq<Member>, a: Aim, l: Loop, l': Loop, k: nat, v: Json, t: Member)
    requires LoopInv(cur, a, l) && Walks(a, l) && l.from != [] && !Changed(l.from[0], a.to, a.cs)
    requires k < l.p && cur[k] == l.from[0] && SameKey(l.from[0].name, t.name, a.cs) && Equal(v, t.value, a.cs)
    requires l'.p == l.p && l'.past == l.past + [l.from[0]] && l'.from == l.from[1..] && l'.done == l.done + [t]
    ensures LoopInv(cur[k := Member(cur[k].name, v)], a, l')
  {
    hide Changed, Key, Equal, Distinct, InStep, OwnPart, DonePart, Ascending, ToCome, HasKey;
    var next := cur[k := Member(cur[k].name, v)];
    SameNamesDistinct(cur, next, a.cs);
    OwnInPlace(cur, a, l, l', k, v, t);
    DoneInPlace(cur, a, l, l', k, v, t);
    InStepSame(cur[..l.p], next[..l.p], a, l.past, l.from[0]);
  }

  // ---- The end of the loop ----

  lemma OthersUnchanged(g: seq<Member>, t: nat, i: nat, to: seq<Member>, cs: bool)
    requires t <= i < |g| && CountChanged(g, to, cs) == t && forall j :: 0 <= j < t ==> Changed(g[j], to, cs)
    ensures !Changed(g[i], to, cs)
  {
    hide Changed;
    assert g == g[..t] + g[t..];
    CountAppend(g[..t], g[t..], to, cs);
    CountAll(g[..t], to, cs);
    CountAll(g[t..], to, cs);
    assert g[t..][i - t] == g[i];
  }

  lemma NoneLeft(cur: seq<Member>, a: Aim, l: Loop, k: nat, y: Member)
    requires LoopInv(cur, a, l) && Walks(a, l) && l.from == [] && k < l.p && y in a.from && y.name == cur[k].name
    ensures !Changed(y, a.to, a.cs)
  {
    hide Key, Fold, Distinct, Changed, LoopInv, Namesakes, Turns, Ascending, ToCome, HasKey;
    var key := Fold(y.name);
    var t, g := Turns(l.past, a.to, key, a.cs), Namesakes(a.from, key);
    TurnsTotal(a.from, l.past, l.from, a.to, key, a.cs);
    assert l.p <= |cur| by { LoopLength(cur, a, l); }
    var i := OwnPlace(cur, a, l, k);
    OthersUnchanged(g, t, i, a.to, a.cs);
    NamesakesIn(a.from, key);
    assert y in g;
    var j :| 0 <= j < |g| && g[j] == y;
    NamesakesDistinct(a.from, key, j, i, a.cs);
  }

  lemma LoopLength(cur: seq<Member>, a: Aim, l: Loop)
    requires LoopInv(cur, a, l)
    ensures l.p <= |cur|
  {}

  /** At the end the members are those of `to`, with what became of them. */
  lemma LoopEnds(cur: seq<Member>, a: Aim, l: Loop)
    requires LoopInv(cur, a, l) && Walks(a, l) && l.from == []
    ensures Equal(Object(cur), Object(l.done), a.cs)
  {
    hide Equal, Matched, MatchedBy, Distinct, Changed, InStep, Ascending, ToCome, HasKey;
    forall k | 0 <= k < |cur|
      ensures Matched(cur[k], l.done, a.cs)
    {
      if k < l.p {
        assert HasOrigin(cur[k], a, l);
        var y :| y in a.from && Stems(cur[k], y, a, l);
        NoneLeft(cur, a, l, k, y);
      }
    }
    EqualObjects(cur, l.done, a.cs);
  }

  // ---- The walk over the sorted lists ----

  /** Where the walk stands after a step that left the given member behind. */
  function After(l: Loop, p: nat, made: Option<Member>, cs: bool): Loop
    requires l.from != [] || l.to != []
  {
    var (from, to) := Rest(l.from, l.to, cs);
    Loop(p,
         if from == l.from then l.past else l.past + [l.from[0]], from,
         if to == l.to then l.passed else l.passed + [l.to[0]], to,
         if made.None? then l.done else l.done + [made.value])
  }

  lemma ComesLater(a: Aim, l: Loop, l': Loop, m: Member)
    requires ToCome(a, l, m) && l.to != [] && l'.to == l.to[1..] && !SameKey(m.name, l.to[0].name, a.cs)
    ensures ToCome(a, l', m)
  {
    hide Key, Mismatch;
    SameKeySymmetric(m.name, l.to[0].name, a.cs);
    if Changed(m, l'.to, a.cs) { ChangedByRest(m, l.to, a.cs); }
    if Changed(m, l.to, a.cs) {
      forall j | 0 <= j < |l'.to| && SameKey(m.name, l'.to[j].name, a.cs)
        ensures Mismatch(m.value, l'.to[j].value)
      {
        assert l'.to[j] == l.to[j + 1];
      }
    }
    NoKeyCons(l.to, m.name, a.cs);
  }

  lemma NoKeyCons(s: seq<Member>, name: cstring, cs: bool)
    requires s != []
    ensures NoKey(s, name, cs) <==> !SameKey(s[0].name, name, cs) && NoKey(s[1..], name, cs)
  {
    hide Key;
    if !SameKey(s[0].name, name, cs) && NoKey(s[1..], name, cs) {
      forall k | 0 <= k < |s|
        ensures !SameKey(s[k].name, name, cs)
      {
        assert k > 0 ==> s[k] == s[1..][k - 1];
      }
    }
  }

  lemma StillToCome(a: Aim, l: Loop, l': Loop)
    requires Walks(a, l) && (l.from != [] || l.to != []) && (l'.from, l'.to) == Rest(l.from, l.to, a.cs)
    ensures forall i :: 0 <= i < |l'.from| ==> ToCome(a, l', l'.from[i])
    ensures forall j :: 0 <= j < |l'.to| && !HasKey(l'.to[j].name, l'.from, NameOf, a.cs) ==>
              !HasKey(l'.to[j].name, a.from, NameOf, a.cs)
  {
    hide Compare, Key, Ascending, Distinct, ToCome, HasKey;
    AscendingSplit(l.past, l.from, a.cs);
    AscendingSplit(l.passed, l.to, a.cs);
    StepApart(l.from, l.to, a.cs);
    forall i | 0 <= i < |l'.from|
      ensures ToCome(a, l', l'.from[i])
    {
      assert l'.from[i] == l.from[if l'.from == l.from then i else i + 1];
      if l'.to != l.to { ComesLater(a, l, l', l'.from[i]); } else { ToComeSame(a, l, l', l'.from[i]); }
    }
    forall j | 0 <= j < |l'.to| && !HasKey(l'.to[j].name, l'.from, NameOf, a.cs)
      ensures !HasKey(l'.to[j].name, a.from, NameOf, a.cs)
    {
      assert l'.to[j] == l.to[if l'.to == l.to then j else j + 1];
      if l'.from != l.from && HasKey(l'.to[j].name, l.from, NameOf, a.cs) { KeyOfRest(l'.to[j].name, l.from, a.cs); }
    }
  }

  lemma ToComeSame(a: Aim, l: Loop, l': Loop, m: Member)
    requires ToCome(a, l, m) && l'.to == l.to
    ensures ToCome(a, l', m)
  {
    hide Changed, NoKey;
  }

  lemma MoveOver<T>(past: seq<T>, rest: seq<T>)
    requires rest != []
    ensures past + [rest[0]] + rest[1..] == past + rest
  {}

  lemma SameNamesSnoc(a: seq<Member>, b: seq<Member>, m: Member, t: Member)
    requires SameNames(a, b) && m.name == t.name
    ensures SameNames(a + [m], b + [t])
  {}

  /** A step of the walk keeps what is known of the lists. */
  lemma WalksOn(a: Aim, l: Loop, p: nat, made: Option<Member>)
    requires Walks(a, l) && (l.from != [] || l.to != [])
    requires made.None? <==> Rest(l.from, l.to, a.cs).1 == l.to
    requires made.Some? ==> l.to != [] && made.value.name == l.to[0].name
    ensures Walks(a, After(l, p, made, a.cs))
  {
    hide Compare, Key, Ascending, Distinct, ToCome, HasKey, Sort, SameNames;
    var l' := After(l, p, made, a.cs);
    StillToCome(a, l, l');
    if l'.from != l.from { MoveOver(l.past, l.from); }
    if l'.to != l.to {
      MoveOver(l.passed, l.to);
      SameNamesSnoc(l.done, l.passed, made.value, l.to[0]);
    }
  }

  /** What the next step of the walk is about. */
  lemma StepKinds(a: Aim, l: Loop)
    requires Walks(a, l) && (l.from != [] || l.to != [])
    ensures Ascending(l.from, NameOf, a.cs) && Ascending(l.to, NameOf, a.cs)
    ensures var (f, t) := Rest(l.from, l.to, a.cs);
            && (t == l.to ==> l.from != [] && Changed(l.from[0], a.to, a.cs) && NoKey(a.to, l.from[0].name, a.cs))
            && (f == l.from ==> l.to != [] && !HasKey(l.to[0].name, a.from, NameOf, a.cs))
            && (f != l.from && t != l.to ==>
                  && SameKey(l.from[0].name, l.to[0].name, a.cs) && !NoKey(a.to, l.from[0].name, a.cs)
                  && (Changed(l.from[0], a.to, a.cs) <==> Mismatch(l.from[0].value, l.to[0].value)))
  {
    hide Compare, Key, Ascending, Distinct, Mismatch;
    AscendingSplit(l.past, l.from, a.cs);
    AscendingSplit(l.passed, l.to, a.cs);
    StepApart(l.from, l.to, a.cs);
    var (f, t) := Rest(l.from, l.to, a.cs);
    if l.from != [] { assert ToCome(a, l, l.from[0]); }
    if t == l.to {
      forall j | 0 <= j < |l.to|
        ensures !SameKey(l.to[j].name, l.from[0].name, a.cs)
      {
        SameKeySymmetric(l.to[j].name, l.from[0].name, a.cs);
      }
    } else if f != l.from {
      PairFolds(l.from, l.to, a.cs);
      SameKeySymmetric(l.from[0].name, l.to[0].name, a.cs);
      OnlyCounterpart(a, l);
    }
  }

  lemma OnlyCounterpart(a: Aim, l: Loop)
    requires l.from != [] && l.to != [] && SameKey(l.from[0].name, l.to[0].name, a.cs)
    requires forall j :: 0 <= j < |l.to[1..]| ==> !SameKey(l.to[1..][j].name, l.from[0].name, a.cs)
    ensures Changed(l.from[0], l.to, a.cs) <==> Mismatch(l.from[0].value, l.to[0].value)
  {
    hide Key, Mismatch;
    forall j | 0 < j < |l.to|
      ensures !SameKey(l.from[0].name, l.to[j].name, a.cs)
    {
      assert l.to[1..][j - 1] == l.to[j];
      SameKeySymmetric(l.from[0].name, l.to[j].name, a.cs);
    }
  }

  /** What has been passed is smaller than what is to come. */
  lemma PassedBelow(a: Aim, l: Loop)
    requires Walks(a, l) && l.to != []
    ensures forall i :: 0 <= i < |l.done| ==> Compare(l.done[i].name, l.to[0].name, a.cs) < 0
  {
    hide Compare, Ascending, Distinct, ToCome, HasKey;
    forall i | 0 <= i < |l.done|
      ensures Compare(l.done[i].name, l.to[0].name, a.cs) < 0
    {
      DoneBelow(l.passed, l.to, a.cs, i);
    }
  }

  // ---- The beginning ----

  function Start(a: Aim): Loop {
    Loop(|a.from|, [], Sort(a.from, NameOf, a.cs), [], Sort(a.to, NameOf, a.cs), [])
  }

  lemma InSorted(ms: seq<Member>, cs: bool)
    ensures forall m :: m in Sort(ms, NameOf, cs) <==> m in ms
  {
    hide Sort;
    SortPermutes(ms, NameOf, cs);
    forall m
      ensures m in Sort(ms, NameOf, cs) <==> m in ms
    {
      assert m in multiset(Sort(ms, NameOf, cs)) <==> m in multiset(ms);
    }
  }

  lemma SortedToCome(a: Aim, m: Member)
    ensures ToCome(a, Start(a), m)
  {
    hide Sort, Key, Mismatch;
    ChangedSorted(m, a.to, a.cs);
    var t := Sort(a.to, NameOf, a.cs);
    if NoKey(a.to, m.name, a.cs) {
      forall k | 0 <= k < |t|
        ensures !SameKey(t[k].name, m.name, a.cs)
      {
        var i := SortedFrom(a.to, NameOf, a.cs, k);
      }
    }
    if NoKey(t, m.name, a.cs) {
      forall i | 0 <= i < |a.to|
        ensures !SameKey(a.to[i].name, m.name, a.cs)
      {
        var k := SortedAt(a.to, NameOf, a.cs, i);
      }
    }
  }

  lemma WalkStarts(a: Aim)
    requires Distinct(a.from, NameOf, a.cs) && Distinct(a.to, NameOf, a.cs)
    ensures Walks(a, Start(a))
  {
    hide Sort, Compare, Key, Ascending, Distinct, ToCome, HasKey;
    var l := Start(a);
    assert l.past + l.from == l.from && l.passed + l.to == l.to;
    SortStrict(a.from, NameOf, a.cs);
    SortStrict(a.to, NameOf, a.cs);
    SortPermutes(a.from, NameOf, a.cs);
    SortPermutes(a.to, NameOf, a.cs);
    forall i | 0 <= i < |l.from|
      ensures ToCome(a, l, l.from[i])
    {
      SortedToCome(a, l.from[i]);
    }
    forall j | 0 <= j < |l.to| && !HasKey(l.to[j].name, l.from, NameOf, a.cs)
      ensures !HasKey(l.to[j].name, a.from, NameOf, a.cs)
    {
      HasKeySorted(l.to[j].name, a.from, a.cs);
    }
  }

  lemma LoopStarts(a: Aim)
    requires Distinct(a.from, NameOf, a.cs)
    ensures LoopInv(a.from, a, Start(a)) && Balanced(a.from, a, Start(a))
  {
    hide Sort, Compare, Key, Fold, Distinct, Changed, Namesakes, Owed;
    var l := Start(a);
    assert a.from[..l.p] == a.from;
    InSorted(a.from, a.cs);
    forall key
      ensures InStepAt(a.from, a, [], key) && BalancedAt(a.from, a, l, key)
    {
      assert Namesakes([], key) == [] by { NoNamesakes(key); }
      assert Namesakes(a.from, key)[0..] == Namesakes(a.from, key);
      OwedTotal(l.from, l.to, a.cs, key);
      SortPermutes(a.from, NameOf, a.cs);
      SortPermutes(a.to, NameOf, a.cs);
      NamesakesPermuted(l.from, a.from, key);
      NamesakesPermuted(l.to, a.to, key);
    }
    forall k | 0 <= k < |a.from|
      ensures HasOrigin(a.from[k], a, l)
    {
      assert Stems(a.from[k], a.from[k], a, l);
    }
    forall i | 0 <= i < |l.from|
      ensures HasMember(a.from, l.p, l.from[i])
    {
      assert l.from[i] in a.from;
    }
  }

  lemma NoNamesakes(key: cstring)
    ensures Namesakes([], key) == []
  {}

  // ---- Balance ----

  lemma BalanceOn(cur: seq<Member>, next: seq<Member>, a: Aim, l: Loop, l': Loop)
    requires Balanced(cur, a, l) && (l.from != [] || l.to != []) && (l'.from, l'.to) == Rest(l.from, l.to, a.cs)
    requires forall key :: |Namesakes(next, key)| == |Namesakes(cur, key)| + StepOwed(l.from, l.to, a.cs, key)
    ensures Balanced(next, a, l')
  {
    hide Namesakes, StepOwed, Rest;
    forall key
      ensures BalancedAt(next, a, l', key)
    {
      assert BalancedAt(cur, a, l, key);
    }
  }

  /** Too few namesakes are left for what is to come, or a name is gone that was to stay. */
  ghost predicate Losing(ms: seq<Member>, from: seq<Member>, to: seq<Member>, a: Aim) {
    || (exists y :: y in a.from && !Changed(y, a.to, a.cs) && NoKey(ms, y.name, a.cs))
    || (exists key :: |Namesakes(ms, key)| + Owed(from, to, a.cs, key) < |Namesakes(a.to, key)|)
  }

  lemma {:induction false} EnoughNamesakes(ms: seq<Member>, goal: seq<Member>, cs: bool, key: cstring)
    requires Distinct(goal, NameOf, cs) && forall j :: 0 <= j < |goal| ==> !NoKey(ms, goal[j].name, cs)
    ensures |Namesakes(goal, key)| <= |Namesakes(ms, key)|
    decreases |goal|
  {
    hide Key, Fold;
    if goal != [] {
      var g := goal[0];
      assert !NoKey(ms, g.name, cs);
      var i :| 0 <= i < |ms| && SameKey(ms[i].name, g.name, cs);
      var rest := Without(ms, i);
      forall j | 0 <= j < |goal| - 1
        ensures !NoKey(rest, goal[1..][j].name, cs)
      {
        assert !NoKey(ms, goal[j + 1].name, cs);
        assert !SameKey(NameOf(goal[0]), NameOf(goal[j + 1]), cs);
        var k :| 0 <= k < |ms| && SameKey(ms[k].name, goal[j + 1].name, cs);
        WithoutAt(ms, i, k);
        assert rest[SkipTo(k, i)] == ms[k];
      }
      forall x, y | 0 <= x < y < |goal| - 1
        ensures !SameKey(NameOf(goal[1..][x]), NameOf(goal[1..][y]), cs)
      {
        assert !SameKey(NameOf(goal[x + 1]), NameOf(goal[y + 1]), cs);
      }
      EnoughNamesakes(rest, goal[1..], cs, key);
      FoldedKeys(ms[i].name, g.name, cs);
      NamesakesWithout(ms, i, key);
    }
  }

  lemma TooFewDiffer(ms: seq<Member>, goal: seq<Member>, cs: bool, key: cstring)
    requires Distinct(goal, NameOf, cs) && |Namesakes(ms, key)| < |Namesakes(goal, key)|
    ensures !Equal(Object(ms), Object(goal), cs)
  {
    hide Key, Fold, Namesakes, Equal;
    if Equal(Object(ms), Object(goal), cs) {
      forall j | 0 <= j < |goal|
        ensures !NoKey(ms, goal[j].name, cs)
      {
        var i := EqualMemberBack(ms, goal, cs, j);
      }
      EnoughNamesakes(ms, goal, cs, key);
    }
  }

  lemma GoneDiffers(ms: seq<Member>, y: Member, goal: seq<Member>, cs: bool)
    requires !Changed(y, goal, cs) && NoKey(ms, y.name, cs)
    ensures !Equal(Object(ms), Object(goal), cs)
  {
    hide Key, Equal, Mismatch;
    if Equal(Object(ms), Object(goal), cs) {
      var j :| 0 <= j < |goal| && SameKey(y.name, goal[j].name, cs);
      var i := EqualMemberBack(ms, goal, cs, j);
    }
  }

  lemma GoneMissed(a: Aim, y: Member, n: cstring)
    requires Distinct(a.from, NameOf, a.cs) && y in a.from && !Changed(y, a.to, a.cs)
    requires n in Ends(a.from, a.to, a.cs) && DecodeSafe(n)
    ensures Misses(Lost(y.name), n, a.cs)
  {
    hide DecodeSafe, DecodeFrom, Encode, Ends, Key, Changed, Distinct, HasKey;
    DecodeUndoesEncodeIff(n);
    if SameKey(n, y.name, a.cs) {
      var own, i := EndsCases(a.from, a.to, a.cs, n);
      if own {
        SameMember(a.from, a.from[i], y, a.cs);
      } else {
        var k :| 0 <= k < |a.from| && a.from[k] == y;
        HasKeyAt(n, a.from, k, a.cs);
      }
    }
  }

  /** Once something is lost, the patches do not lead to the second object any more. */
  lemma LosingRun(doc: Json, pointer: cstring, loc: Path, a: Aim, from: seq<Member>, to: seq<Member>, bound: nat)
    returns (r: Json)
    requires LeadsTo(doc, pointer, a.cs, loc) && At(doc, loc).Object? && Losing(At(doc, loc).members, from, to, a)
    requires Distinct(a.from, NameOf, a.cs) && Distinct(a.to, NameOf, a.cs)
    requires Ascending(from, NameOf, a.cs) && Ascending(to, NameOf, a.cs)
    requires Ends(from, to, a.cs) <= Ends(a.from, a.to, a.cs) && forall n :: n in Ends(a.from, a.to, a.cs) ==>
               DecodeSafe(n)
    requires forall i :: 0 <= i < |from| ==> Size(from[i].value) <= bound
    ensures var (doc', status) := EditAll(doc, MemberPatches(pointer, from, to, a.cs, bound), a.cs);
            status == 0 ==> doc' == Put(doc, loc, r) && !Equal(r, Object(a.to), a.cs)
  {
    hide DecodeSafe, Ends, Key, Changed, Distinct, Ascending, Namesakes, Equal, Put, At, Resolve, EditAll;
    hide MemberPatches, Owed, NoKey;
    hide AtMost;
    var ms := At(doc, loc).members;
    var (doc', status) := EditAll(doc, MemberPatches(pointer, from, to, a.cs, bound), a.cs);
    r := Null;
    if y :| y in a.from && !Changed(y, a.to, a.cs) && NoKey(ms, y.name, a.cs) {
      forall n | n in Ends(from, to, a.cs)
        ensures Misses(Lost(y.name), n, a.cs)
      {
        GoneMissed(a, y, n);
      }
      RunKeeps(doc, pointer, a.cs, loc, from, to, bound, Lost(y.name));
      if status == 0 {
        var ms': seq<Member> :| doc' == Put(doc, loc, Object(ms')) && Marked(Lost(y.name), ms', a.cs);
        r := Object(ms');
        GoneDiffers(ms', y, a.to, a.cs);
      }
    } else {
      var key :| |Namesakes(ms, key)| + Owed(from, to, a.cs, key) < |Namesakes(a.to, key)|;
      FewNamesakes(ms, key);
      RunLeaves(doc, pointer, a.cs, loc, from, to, bound, key, |Namesakes(ms, key)|);
      if status == 0 {
        var n := |Namesakes(ms, key)| + Owed(from, to, a.cs, key);
        var ms': seq<Member> :| doc' == Put(doc, loc, Object(ms')) && AtMost(ms', key, n);
        r := Object(ms');
        FewerNamesakes(ms', key, n);
        TooFewDiffer(ms', a.to, a.cs, key);
      }
    }
  }

  lemma FewNamesakes(ms: seq<Member>, key: cstring)
    ensures AtMost(ms, key, |Namesakes(ms, key)|)
  {}

  lemma FewerNamesakes(ms: seq<Member>, key: cstring, n: int)
    requires AtMost(ms, key, n)
    ensures |Namesakes(ms, key)| <= n
  {}

  // ---- The steps of the walk ----

  /** A member that is to stay as it is in kind has been taken. */
  lemma TakenWrongly(cur: seq<Member>, a: Aim, k: nat, y: Member)
    requires k < |cur| && Distinct(cur, NameOf, a.cs) && cur[k].name == y.name
    ensures NoKey(Without(cur, k), y.name, a.cs)
  {
    hide Key, Distinct;
    DistinctWithout(cur, k, a.cs);
    var rest := Without(cur, k);
    LookupFirst(rest, y.name, a.cs);
    forall j | 0 <= j < |rest|
      ensures !SameKey(rest[j].name, y.name, a.cs)
    {
      SameKeySymmetric(y.name, rest[j].name, a.cs);
    }
  }

  lemma IsLosing(ms: seq<Member>, from: seq<Member>, to: seq<Member>, a: Aim, y: Member)
    requires y in a.from && !Changed(y, a.to, a.cs) && NoKey(ms, y.name, a.cs)
    ensures Losing(ms, from, to, a)
  {
    hide Changed, NoKey, Namesakes, Owed;
  }

  lemma DueIff(a: Aim, l: Loop, x: Member, y: Member)
    requires var t, g := Turns(l.past, a.to, Fold(x.name), a.cs), Namesakes(a.from, Fold(x.name)); t < |g| && y == g[t]
    ensures var t, g := Turns(l.past, a.to, Fold(x.name), a.cs), Namesakes(a.from, Fold(x.name));
            Due(a.from, a.to, l.past, x, a.cs) <==>
            Changed(y, a.to, a.cs) && (NoKey(a.to, x.name, a.cs) || x in g[..t + 1])
  {
    hide Changed, NoKey, Namesakes, Turns;
  }

  /** One member less in `to`: its patch takes a namesake. */
  lemma GoneStep(cur: seq<Member>, a: Aim, l: Loop, l': Loop) returns (k: nat)
    requires LoopInv(cur, a, l) && Balanced(cur, a, l) && Walks(a, l) && l.from != [] &&
             Rest(l.from, l.to, a.cs).1 == l.to
    requires l.p > 0 ==> l' == After(l, l.p - 1, None, a.cs)
    ensures k < l.p && Lookup(cur, l.from[0].name, false) == Some(k)
    ensures if Due(a.from, a.to, l.past, l.from[0], a.cs)
            then LoopInv(Without(cur, k), a, l') && Balanced(Without(cur, k), a, l')
            else Losing(Without(cur, k), l'.from, l'.to, a)
  {
    hide Changed, Key, Fold, Distinct, OwnPart, DonePart, Namesakes, Turns, Ascending, ToCome, HasKey, InStep, NoKey;
    hide Due;
    var x := l.from[0];
    StepKinds(a, l);
    var y;
    k, y := Front(cur, a, l);
    DueIff(a, l, x, y);
    if Changed(y, a.to, a.cs) {
      StepTaken(cur, a, l, l', k, y);
      forall key
        ensures |Namesakes(Without(cur, k), key)| == |Namesakes(cur, key)| + StepOwed(l.from, l.to, a.cs, key)
      {
        NamesakesWithout(cur, k, key);
      }
      BalanceOn(cur, Without(cur, k), a, l, l');
    } else {
      TakenWrongly(cur, a, k, y);
      IsLosing(Without(cur, k), l'.from, l'.to, a, y);
    }
  }

  lemma NoKeyDeleted(ms: seq<Member>, name: cstring, gone: cstring, cs: bool)
    requires NoKey(ms, gone, cs)
    ensures NoKey(DeleteMember(ms, name, cs), gone, cs)
  {
    hide Key;
    var i := Lookup(ms, name, cs);
    if i.Some? { NoKeyWithout(ms, i.value, gone, cs); }
  }

  lemma NoKeyAdded(ms: seq<Member>, m: Member, gone: cstring, cs: bool)
    requires NoKey(ms, gone, cs) && !SameKey(m.name, gone, cs)
    ensures NoKey(ms + [m], gone, cs)
  {
    hide Key;
  }

  lemma AloneDeletes(ms: seq<Member>, name: cstring, cs: bool)
    requires forall k :: 0 <= k < |ms| ==> !SameKey(ms[k].name, name, cs)
    ensures Lookup(ms, name, cs).None? && DeleteMember(ms, name, cs) == ms
  {
    hide Key;
    LookupFirst(ms, name, cs);
    forall k | 0 <= k < |ms|
      ensures !SameKey(name, ms[k].name, cs)
    {
      SameKeySymmetric(name, ms[k].name, cs);
    }
  }

  /** The members after a replacement has taken member k. */
  function Replaced(cur: seq<Member>, k: nat, m: Member, cs: bool): seq<Member>
    requires k < |cur|
  {
    DeleteMember(Without(cur, k), m.name, cs) + [m]
  }

  /** The member to be replaced was still there, and is deleted in addition. */
  lemma ReplacedTwice(cur: seq<Member>, a: Aim, l: Loop, l': Loop, k: nat, m: Member)
    requires Balanced(cur, a, l) && k < |cur| && Fold(cur[k].name) == Fold(m.name) &&
             Lookup(Without(cur, k), m.name, a.cs).Some?
    requires (l.from != [] || l.to != []) && (l'.from, l'.to) == Rest(l.from, l.to, a.cs)
    requires StepOwed(l.from, l.to, a.cs, Fold(m.name)) == 0
    ensures Losing(Replaced(cur, k, m, a.cs), l'.from, l'.to, a)
  {
    hide Fold, Namesakes, StepOwed, Rest, Lookup;
    var key := Fold(m.name);
    assert BalancedAt(cur, a, l, key);
    NamesakesWithout(cur, k, key);
    DeleteCounts(Without(cur, k), m.name, a.cs, key);
    AddCounts(DeleteMember(Without(cur, k), m.name, a.cs), m, key);
  }

  lemma ReplacedBalances(cur: seq<Member>, a: Aim, l: Loop, l': Loop, k: nat, m: Member)
    requires Balanced(cur, a, l) && k < |cur| && Fold(cur[k].name) == Fold(m.name)
    requires Lookup(Without(cur, k), m.name, a.cs).None?
    requires (l.from != [] || l.to != []) && (l'.from, l'.to) == Rest(l.from, l.to, a.cs) && l'.from != l.from &&
             l'.to != l.to
    ensures Balanced(Replaced(cur, k, m, a.cs), a, l')
  {
    hide Fold, Namesakes, Lookup, Compare, Balanced;
    forall key
      ensures |Namesakes(Replaced(cur, k, m, a.cs), key)| == |Namesakes(cur, key)| + StepOwed(l.from, l.to, a.cs, key)
    {
      NamesakesWithout(cur, k, key);
      AddCounts(Without(cur, k), m, key);
    }
    BalanceOn(cur, Replaced(cur, k, m, a.cs), a, l, l');
  }

  lemma ReplacedFits(cur: seq<Member>, a: Aim, l: Loop, l': Loop, k: nat, y: Member, m: Member)
    requires LoopInv(cur, a, l) && Balanced(cur, a, l) && Walks(a, l) && l.from != [] && l.to != []
    requires Changed(l.from[0], a.to, a.cs) && Changed(y, a.to, a.cs) && SameKey(l.from[0].name, l.to[0].name, a.cs)
    requires var t, g := Turns(l.past, a.to, Fold(m.name), a.cs), Namesakes(a.from, Fold(m.name));
             t < |g| && y == g[t] && y in a.from && Fold(y.name) == Fold(m.name)
    requires k < l.p && Lookup(cur, l.from[0].name, false) == Some(k) && cur[k].name == y.name
    requires m == Member(l.from[0].name, l.to[0].value)
    requires l' == After(l, l.p - 1, Some(l.to[0]), a.cs) && l'.from == l.from[1..] && l'.to == l.to[1..]
    requires l'.from != l.from && l'.to != l.to
    ensures var t, g := Turns(l.past, a.to, Fold(m.name), a.cs), Namesakes(a.from, Fold(m.name));
            if l.from[0] in g[..t + 1] then
              LoopInv(Replaced(cur, k, m, a.cs), a, l') && Balanced(Replaced(cur, k, m, a.cs), a, l')
            else Losing(Replaced(cur, k, m, a.cs), l'.from, l'.to, a)
  {
    hide Changed, Key, Fold, Distinct, OwnPart, Namesakes, Turns, Ascending, ToCome, HasKey, InStep, NoKey, Equal;
    hide Compare;
    hide Balanced, Losing, Matched, MatchedBy, Owed;
    var x := l.from[0];
    var rest, l1 := Without(cur, k), l'.(done := l.done);
    StepTaken(cur, a, l, l1, k, y);
    TurnsNext(l.past, a.to, x, Fold(m.name), a.cs);
    InSource(a, l);
    assert x in l.from && x in a.from;
    var t, g := Turns(l.past, a.to, Fold(m.name), a.cs), Namesakes(a.from, Fold(m.name));
    if x in g[..t + 1] {
      ReplacedGone(rest, a, l1, x);
      AloneDeletes(rest, x.name, a.cs);
      EqualReflexive(m.value, a.cs);
      RestAbove(a, l);
      StepAdded(rest, a, l1, l', m, l.to[0]);
      ReplacedBalances(cur, a, l, l', k, m);
    } else {
      ReplacedStays(rest, a, l1, x);
      ReplacedTwice(cur, a, l, l', k, m);
    }
  }

  lemma RestAbove(a: Aim, l: Loop)
    requires Walks(a, l) && l.from != [] && l.to != [] && SameKey(l.from[0].name, l.to[0].name, a.cs)
    ensures forall j :: 0 <= j < |l.from| - 1 ==> Compare(l.to[0].name, l.from[1..][j].name, a.cs) < 0
  {
    hide Key, Compare, Ascending, ToCome, HasKey, Distinct;
    AscendingSplit(l.past, l.from, a.cs);
    forall j | 0 <= j < |l.from| - 1
      ensures Compare(l.to[0].name, l.from[1..][j].name, a.cs) < 0
    {
      FirstDiffers(l.from, a.cs, j + 1);
      SameKeyAbove(l.from[0].name, l.to[0].name, l.from[j + 1].name, a.cs);
    }
  }

  /** A member replaced as a whole: its patch takes a namesake and adds the member again. */
  lemma ReplacedStep(cur: seq<Member>, a: Aim, l: Loop, l': Loop) returns (k: nat)
    requires LoopInv(cur, a, l) && Balanced(cur, a, l) && Walks(a, l) && l.from != [] && l.to != []
    requires Rest(l.from, l.to, a.cs) == (l.from[1..], l.to[1..]) && Mismatch(l.from[0].value, l.to[0].value)
    requires l.p > 0 ==> l' == After(l, l.p - 1, Some(l.to[0]), a.cs)
    ensures k < l.p && Lookup(cur, l.from[0].name, false) == Some(k)
    ensures var next := Replaced(cur, k, Member(l.from[0].name, l.to[0].value), a.cs);
            if Due(a.from, a.to, l.past, l.from[0], a.cs) then LoopInv(next, a, l') && Balanced(next, a, l')
            else Losing(next, l'.from, l'.to, a)
  {
    hide Changed, Key, Fold, Distinct, OwnPart, DonePart, Namesakes, Turns, Ascending, ToCome, HasKey, InStep, NoKey;
    hide Due;
    hide Balanced, Losing, Compare, DeleteMember, Mismatch;
    var x, m := l.from[0], Member(l.from[0].name, l.to[0].value);
    assert |l.from[1..]| < |l.from| && |l.to[1..]| < |l.to|;
    StepKinds(a, l);
    InSource(a, l);
    assert x in l.from && x in a.from;
    var y;
    k, y := Front(cur, a, l);
    DueIff(a, l, x, y);
    if Changed(y, a.to, a.cs) {
      ReplacedFits(cur, a, l, l', k, y, m);
    } else {
      TakenWrongly(cur, a, k, y);
      NoKeyDeleted(Without(cur, k), x.name, y.name, a.cs);
      if SameKey(x.name, y.name, a.cs) { SameMember(a.from, x, y, a.cs); }
      NoKeyAdded(DeleteMember(Without(cur, k), x.name, a.cs), m, y.name, a.cs);
      IsLosing(Replaced(cur, k, m, a.cs), l'.from, l'.to, a, y);
    }
  }

  /** One member more in `to`: its patch adds it. */
  lemma NewStep(cur: seq<Member>, a: Aim, l: Loop, l': Loop)
    requires LoopInv(cur, a, l) && Balanced(cur, a, l) && Walks(a, l) && l.to != [] &&
             Rest(l.from, l.to, a.cs).0 == l.from
    requires l' == After(l, l.p, Some(l.to[0]), a.cs)
    ensures DeleteMember(cur, l.to[0].name, a.cs) == cur
    ensures LoopInv(cur + [l.to[0]], a, l') && Balanced(cur + [l.to[0]], a, l')
  {
    hide Changed, Key, Fold, Distinct, OwnPart, DonePart, Namesakes, Ascending, HasKey, InStep, NoKey, Equal, Compare;
    var t := l.to[0];
    StepKinds(a, l);
    PassedBelow(a, l);
    AddedAlone(cur, a, l, t.name);
    AloneDeletes(cur, t.name, a.cs);
    EqualReflexive(t.value, a.cs);
    SameKeyReflexive(t.name, a.cs);
    NewBelow(a, l);
    StepAdded(cur, a, l, l', t, t);
    forall key
      ensures |Namesakes(cur + [t], key)| == |Namesakes(cur, key)| + StepOwed(l.from, l.to, a.cs, key)
    {
      AddCounts(cur, t, key);
    }
    BalanceOn(cur, cur + [t], a, l, l');
  }

  lemma NewBelow(a: Aim, l: Loop)
    requires Walks(a, l) && l.to != [] && Rest(l.from, l.to, a.cs).0 == l.from
    ensures forall j :: 0 <= j < |l.from| ==> Compare(l.to[0].name, l.from[j].name, a.cs) < 0
  {
    hide Key, Compare, Ascending, ToCome, HasKey, Distinct;
    AscendingSplit(l.past, l.from, a.cs);
    if l.from != [] {
      CompareOrder(l.from[0].name, l.to[0].name, l.from[0].name, a.cs);
      assert |l.from[1..]| < |l.from|;
      forall j | 0 <= j < |l.from|
        ensures Compare(l.to[0].name, l.from[j].name, a.cs) < 0
      {
        FromAbove(l.to[0].name, l.from, a.cs, j);
      }
    }
  }

  /** A member in both objects that is the same in kind: where it is, and what a change of it does. */
  lemma SameAt(cur: seq<Member>, a: Aim, l: Loop) returns (k: nat)
    requires LoopInv(cur, a, l) && Walks(a, l) && l.from != [] && !Changed(l.from[0], a.to, a.cs)
    ensures k < l.p && cur[k] == l.from[0] && Lookup(cur, l.from[0].name, a.cs) == Some(k)
  {
    hide Changed, Key, Distinct, DonePart, Ascending, ToCome, HasKey, InStep;
    assert HasMember(cur, l.p, l.from[0]);
    k :| 0 <= k < l.p && cur[k] == l.from[0];
    LookupFirst(cur, l.from[0].name, a.cs);
    SameKeyReflexive(l.from[0].name, a.cs);
    DistinctIndex(cur, k, Lookup(cur, l.from[0].name, a.cs).value, a.cs);
  }

  lemma SameStep(cur: seq<Member>, a: Aim, l: Loop, l': Loop, k: nat, v: Json)
    requires LoopInv(cur, a, l) && Balanced(cur, a, l) && Walks(a, l) && l.from != [] && l.to != []
    requires Rest(l.from, l.to, a.cs) == (l.from[1..], l.to[1..]) && !Mismatch(l.from[0].value, l.to[0].value)
    requires k < l.p && cur[k] == l.from[0] && l' == After(l, l.p, Some(Member(l.to[0].name, v)), a.cs)
    ensures LoopInv(cur[k := Member(cur[k].name, v)], a, l') && Balanced(cur[k := Member(cur[k].name, v)], a, l')
  {
    hide Changed, Key, Fold, Distinct, OwnPart, DonePart, Namesakes, Ascending, HasKey, InStep, NoKey, Equal, Compare;
    hide Mismatch;
    assert |l.from[1..]| < |l.from| && |l.to[1..]| < |l.to|;
    StepKinds(a, l);
    EqualReflexive(v, a.cs);
    var next := cur[k := Member(cur[k].name, v)];
    StepInPlace(cur, a, l, l', k, v, Member(l.to[0].name, v));
    forall key
      ensures |Namesakes(next, key)| == |Namesakes(cur, key)| + StepOwed(l.from, l.to, a.cs, key)
    {
      NamesakesNames(next, cur, key);
    }
    BalanceOn(cur, next, a, l, l');
  }
}
