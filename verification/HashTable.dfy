/** The chained hash table, and what it means as a map. */
module HashTable {
  import opened CTypes
  import opened HashKeys

  datatype Entry = Entry(key: HashKey, value: nat, h: bv32, owned: bool)

  /** A chain, its head first; a table of chains. */
  type Chain = seq<Entry>

  const PRIMES: seq<nat> := [
    53, 97, 193, 389, 769, 1543, 3079, 6151, 12289, 24593, 49157, 98317, 196613, 393241, 786433, 1572869,
    3145739, 6291469, 12582917, 25165843, 50331653, 100663319, 201326611, 402653189, 805306457, 1610612741]

  const PRIME_COUNT: nat := 26

  function Prime(i: nat): (r: nat)
    requires i < PRIME_COUNT
    ensures r > 0
  {
    PRIMES[i]
  }

  /** The sizes grow, and the last one is beyond any size that can be asked for. */
  lemma PrimesGrow(i: nat)
    requires i + 1 < PRIME_COUNT
    ensures Prime(i) < Prime(i + 1) && Prime(PRIME_COUNT - 1) > 0x4000_0000
  {}

  /** indexFor. */
  function IndexFor(length: nat, h: bv32): (r: nat)
    requires length > 0
    ensures r < length
  {
    (h as int) % length
  }

  /** ceil(size * 0.65). */
  function LoadLimit(size: nat): nat {
    (13 * size + 19) / 20
  }

  /** It is the smallest number of entries that fills 65 percent of the buckets. */
  lemma LoadLimitIs(size: nat)
    requires size > 0
    ensures 100 * LoadLimit(size) >= 65 * size > 100 * (LoadLimit(size) - 1)
  {}

  // ---- Tables as bags of entries ----

  function Bag(t: seq<Chain>): multiset<Entry> {
    if t == [] then multiset{} else multiset(t[0]) + Bag(t[1..])
  }

  lemma {:induction false} BagUpdate(t: seq<Chain>, b: nat, chain: Chain)
    requires b < |t|
    ensures Bag(t[b := chain]) + multiset(t[b]) == Bag(t) + multiset(chain)
    decreases |t|
  {
    if b == 0 {
      assert t[0 := chain][1..] == t[1..];
    } else {
      BagUpdate(t[1..], b - 1, chain);
      var u := t[b := chain];
      assert u[1..] == t[1..][b - 1 := chain];
      assert Bag(u) == multiset(t[0]) + Bag(u[1..]) && Bag(t) == multiset(t[0]) + Bag(t[1..]);
      AddFront(multiset(t[0]), Bag(u[1..]), multiset(t[b]), Bag(t[1..]), multiset(chain));
    }
  }

  lemma AddFront(a: multiset<Entry>, u: multiset<Entry>, x: multiset<Entry>, t: multiset<Entry>, y: multiset<Entry>)
    requires u + x == t + y
    ensures (a + u) + x == (a + t) + y
  {
    assert (a + u) + x == a + (u + x) && (a + t) + y == a + (t + y);
  }

  lemma Associate(a: multiset<Entry>, b: multiset<Entry>, c: multiset<Entry>)
    ensures a + (b + c) == (a + b) + c
  {}

  lemma Cancel(a: multiset<Entry>, b: multiset<Entry>, x: multiset<Entry>)
    requires a + x == b + x
    ensures a == b
  {
    assert forall e :: (a + x)[e] == a[e] + x[e] && (b + x)[e] == b[e] + x[e];
  }

  /** Pushing an entry on a chain adds it to the bag. */
  lemma BagPush(t: seq<Chain>, b: nat, e: Entry)
    requires b < |t|
    ensures Bag(t[b := [e] + t[b]]) == Bag(t) + multiset{e}
  {
    BagUpdate(t, b, [e] + t[b]);
    assert multiset([e] + t[b]) == multiset{e} + multiset(t[b]);
    assert Bag(t) + (multiset{e} + multiset(t[b])) == (Bag(t) + multiset{e}) + multiset(t[b]);
    Cancel(Bag(t[b := [e] + t[b]]), Bag(t) + multiset{e}, multiset(t[b]));
  }

  /** Taking an entry off a chain removes it from the bag. */
  lemma BagTake(t: seq<Chain>, b: nat, p: nat)
    requires b < |t| && p < |t[b]|
    ensures Bag(t) == Bag(t[b := Without(t[b], p)]) + multiset{t[b][p]}
  {
    var u := t[b := Without(t[b], p)];
    var rest, e := multiset(Without(t[b], p)), multiset{t[b][p]};
    BagUpdate(t, b, Without(t[b], p));
    WithoutBag(t[b], p);
    assert Bag(u) + (rest + e) == (Bag(u) + e) + rest;
    Cancel(Bag(t), Bag(u) + e, rest);
  }

  lemma {:induction false} BagHas(t: seq<Chain>, b: nat, e: Entry)
    requires b < |t| && e in t[b]
    ensures e in Bag(t)
    decreases |t|
  {
    if b > 0 { BagHas(t[1..], b - 1, e); }
  }

  lemma {:induction false} BagFrom(t: seq<Chain>, e: Entry) returns (b: nat)
    requires e in Bag(t)
    ensures b < |t| && e in t[b]
    decreases |t|
  {
    if e in t[0] {
      b := 0;
    } else {
      b := BagFrom(t[1..], e);
      b := b + 1;
    }
  }

  lemma {:induction false} BagEmpty(t: seq<Chain>)
    requires forall b :: 0 <= b < |t| ==> t[b] == []
    ensures Bag(t) == multiset{}
    decreases |t|
  {
    if t != [] { BagEmpty(t[1..]); }
  }

  /** Taking an entry off a chain and putting it in front of another keeps the bag. */
  lemma BagMove(t: seq<Chain>, b: nat, p: nat, to: nat)
    requires b < |t| && to < |t| && b != to && p < |t[b]|
    ensures Bag(t[b := Without(t[b], p)][to := [t[b][p]] + t[to]]) == Bag(t)
  {
    BagTake(t, b, p);
    BagPush(t[b := Without(t[b], p)], to, t[b][p]);
  }

  function Without(chain: Chain, p: nat): Chain
    requires p < |chain|
  {
    chain[..p] + chain[p + 1..]
  }

  lemma WithoutBag(chain: Chain, p: nat)
    requires p < |chain|
    ensures multiset(chain) == multiset(Without(chain, p)) + multiset{chain[p]}
  {
    assert chain == chain[..p] + [chain[p]] + chain[p + 1..];
  }

  // ---- The map a bag of entries stands for ----

  /** From the representative of a key to the entry that binds it. */
  type Bindings = map<HashKey, Entry>

  predicate Binds(m: Bindings, e: Entry, mode: Mode) {
    Canonical(mode, e.key) in m && m[Canonical(mode, e.key)] == e
  }

  ghost predicate Keyed(m: Bindings, mode: Mode) {
    forall c :: c in m ==> Canonical(mode, m[c].key) == c && m[c].h == HashOf(mode, m[c].key)
  }

  /** The bag holds exactly the entries of the map, each once. */
  ghost predicate Represents(bag: multiset<Entry>, m: Bindings, mode: Mode) {
    Keyed(m, mode) && forall e :: bag[e] == if Binds(m, e, mode) then 1 else 0
  }

  lemma RepresentsPush(bag: multiset<Entry>, m: Bindings, mode: Mode, e: Entry)
    requires Represents(bag, m, mode) && e.h == HashOf(mode, e.key) && Canonical(mode, e.key) !in m
    ensures Represents(bag + multiset{e}, m[Canonical(mode, e.key) := e], mode)
  {
    hide HashOf, Canonical;
  }

  lemma RepresentsTake(bag: multiset<Entry>, m: Bindings, mode: Mode, e: Entry, rest: multiset<Entry>)
    requires Represents(bag, m, mode) && bag == rest + multiset{e}
    ensures Binds(m, e, mode) && Represents(rest, m - {Canonical(mode, e.key)}, mode)
  {
    hide HashOf, Canonical;
    assert bag[e] >= 1;
    var c := Canonical(mode, e.key);
    forall x
      ensures rest[x] == if Binds(m - {c}, x, mode) then 1 else 0
    {
      assert bag[x] == rest[x] + if x == e then 1 else 0;
    }
  }

  lemma BoundInBag(bag: multiset<Entry>, m: Bindings, mode: Mode, c: HashKey)
    requires Represents(bag, m, mode) && c in m
    ensures bag[m[c]] == 1
  {
    hide HashOf, Canonical;
    assert Binds(m, m[c], mode);
  }

  lemma NothingBound(m: Bindings, mode: Mode)
    requires Represents(multiset{}, m, mode)
    ensures m == map[]
  {
    forall c | c in m
      ensures false
    {
      BoundInBag(multiset{}, m, mode, c);
    }
  }

  /** The table holds as many entries as the map has keys. */
  lemma {:induction false} SizesAgree(bag: multiset<Entry>, m: Bindings, mode: Mode)
    requires Represents(bag, m, mode)
    ensures |bag| == |m|
    decreases |bag|
  {
    hide HashOf, Canonical;
    if e :| e in bag {
      var rest := bag - multiset{e};
      var c := Canonical(mode, e.key);
      assert bag == rest + multiset{e};
      RepresentsTake(bag, m, mode, e, rest);
      SizesAgree(rest, m - {c}, mode);
      assert m.Keys == (m - {c}).Keys + {c};
    } else {
      assert bag == multiset{};
      NothingBound(m, mode);
    }
  }

  /** Every entry is in the bucket its hash selects. */
  ghost predicate Placed(t: seq<Chain>) {
    t != [] && forall b, p :: 0 <= b < |t| && 0 <= p < |t[b]| ==> IndexFor(|t|, t[b][p].h) == b
  }

  /** A table of the right size that holds the entries of the map, each in its bucket. */
  ghost predicate Buckets(t: seq<Chain>, primeindex: nat, loadlimit: nat, m: Bindings, mode: Mode) {
    && primeindex < PRIME_COUNT && |t| == Prime(primeindex) && loadlimit == LoadLimit(|t|)
    && Placed(t) && Represents(Bag(t), m, mode)
  }

  class Table {
    const mode: Mode
    var table: array<Chain>
    var entrycount: nat
    var loadlimit: nat
    var primeindex: nat
    ghost var model: Bindings

    /** The buckets are right, whatever the count says. */
    ghost predicate Sound()
      reads this, table
    {
      Buckets(table[..], primeindex, loadlimit, model, mode)
    }

    ghost predicate Valid()
      reads this, table
    {
      Sound() && entrycount == |model|
    }

    /** wstk_hashtable_create: the first prime above the requested size. */
    constructor (minsize: nat, mode: Mode)
      requires minsize <= 0x4000_0000
      ensures Valid() && fresh(table) && this.mode == mode && model == map[]
      ensures primeindex < PRIME_COUNT && table.Length > minsize &&
              (primeindex > 0 ==> Prime(primeindex - 1) <= minsize)
    {
      PrimesGrow(0);
      hide Prime, Buckets;
      var pindex := 0;
      while pindex < PRIME_COUNT && Prime(pindex) <= minsize
        invariant 0 <= pindex < PRIME_COUNT
        invariant forall i :: 0 <= i < pindex ==> Prime(i) <= minsize
      {
        pindex := pindex + 1;
      }
      var size := Prime(pindex);
      this.mode := mode;
      table := new Chain[size](_ => []);
      primeindex, entrycount, loadlimit := pindex, 0, LoadLimit(size);
      model := map[];
      new;
      NoEntries(table[..], primeindex, loadlimit, mode);
    }

    /** The count is the number of entries in the chains. */
    lemma CountsEntries()
      requires Valid()
      ensures entrycount == |Bag(table[..])|
    {
      SizesAgree(Bag(table[..]), model, mode);
    }

    /** wstk_hashtable_search. */
    method Find(k: HashKey) returns (v: Option<nat>)
      requires Valid()
      ensures v == if Canonical(mode, k) in model then Some(model[Canonical(mode, k)].value) else None
    {
      BucketsNonempty(table[..], primeindex, loadlimit, model, mode);
      hide HashOf, Canonical, IndexFor, Buckets, Matches, Prime;
      var hashvalue := HashOf(mode, k);
      var chain := table[IndexFor(table.Length, hashvalue)];
      var p := Walk(chain, k, mode);
      if p < |chain| {
        Hit(table[..], primeindex, loadlimit, model, mode, k, p);
        v := Some(chain[p].value);
      } else {
        Miss(table[..], primeindex, loadlimit, model, mode, k);
        v := None;
      }
    }

    /** Takes an entry out of its chain. */
    method Unlink(k: HashKey, index: nat, p: nat) returns (e: Entry)
      requires Valid() && index == IndexFor(table.Length, HashOf(mode, k))
      requires p < |table[index]| && Matches(table[index][p], k, mode)
      modifies this`entrycount, this`model, table
      ensures Valid() && Canonical(mode, k) in old(model) && e == old(model)[Canonical(mode, k)]
      ensures model == old(model) - {Canonical(mode, k)}
    {
      hide HashOf, Canonical, IndexFor, Buckets, Matches, Prime;
      TakeOut(table[..], primeindex, loadlimit, model, mode, k, p);
      e := table[index][p];
      ghost var t := table[..][index := Without(table[index], p)];
      table[index] := Without(table[index], p);
      assert table[..] == t;
      model := model - {Canonical(mode, k)};
      entrycount := entrycount - 1;
    }

    /** _wstk_hashtable_remove: what is owned by the table is freed and not returned. */
    method RemoveFrom(k: HashKey, hashvalue: bv32, index: nat) returns (v: Option<nat>)
      requires Valid() && hashvalue == HashOf(mode, k) && index == IndexFor(table.Length, hashvalue)
      modifies this`entrycount, this`model, table
      ensures Valid() && model == old(model) - {Canonical(mode, k)}
      ensures var c := Canonical(mode, k);
              v == if c in old(model) && !old(model)[c].owned then Some(old(model)[c].value) else None
    {
      hide HashOf, Canonical, IndexFor, Buckets, Matches, Prime;
      var p := Walk(table[index], k, mode);
      if p < |table[index]| {
        var e := Unlink(k, index, p);
        v := if e.owned then None else Some(e.value);
      } else {
        Miss(table[..], primeindex, loadlimit, model, mode, k);
        assert model - {Canonical(mode, k)} == model;
        v := None;
      }
    }

    /** wstk_hashtable_remove. */
    method Remove(k: HashKey) returns (v: Option<nat>)
      requires Valid()
      modifies this`entrycount, this`model, table
      ensures Valid() && model == old(model) - {Canonical(mode, k)}
      ensures var c := Canonical(mode, k);
              v == if c in old(model) && !old(model)[c].owned then Some(old(model)[c].value) else None
    {
      BucketsNonempty(table[..], primeindex, loadlimit, model, mode);
      hide HashOf, Canonical, IndexFor, Buckets, Prime;
      v := RemoveFrom(k, HashOf(mode, k), IndexFor(table.Length, HashOf(mode, k)));
    }

    /** hashtable_expand; the flags say whether a new table and, failing that, a larger one can be
        allocated. */
    method Expand(tableAlloc: bool, reallocOk: bool) returns (grown: bool)
      requires Sound()
      modifies this`table, this`primeindex, this`loadlimit, table
      ensures Sound() && (table == old(table) || fresh(table))
      ensures grown <==> old(primeindex) < PRIME_COUNT - 1 && (tableAlloc || reallocOk)
      ensures primeindex == old(primeindex) + if grown then 1 else 0
      ensures !grown ==> table == old(table) && table[..] == old(table[..]) && loadlimit == old(loadlimit)
    {
      SoundParts(table[..], primeindex, loadlimit, model, mode);
      hide Buckets, Prime, Placed, Represents, Bag, LoadLimit;
      grown := false;
      if primeindex < PRIME_COUNT - 1 {
        primeindex := primeindex + 1;
        grown := Resize(Prime(primeindex), tableAlloc, reallocOk);
        if grown {
          loadlimit := LoadLimit(table.Length);
        } else {
          primeindex := primeindex - 1;
        }
      }
      SoundFrom(table[..], primeindex, loadlimit, model, mode);
    }

    /** The two plans: copy into a new table, or enlarge this one and rearrange it. */
    method Resize(newsize: nat, tableAlloc: bool, reallocOk: bool) returns (grown: bool)
      requires 0 < table.Length <= newsize
      modifies this`table, table
      ensures grown <==> tableAlloc || reallocOk
      ensures Bag(table[..]) == old(Bag(table[..]))
      ensures if grown then fresh(table) && table.Length == newsize && Placed(table[..])
              else table == old(table) && table[..] == old(table[..])
    {
      hide Placed, Bag;
      if tableAlloc {
        var newtable := CopyInto(table, newsize);
        table := newtable;
      } else {
        if !reallocOk {
          return false;
        }
        var newtable := Enlarge(table, newsize);
        RearrangeInPlace(newtable, table.Length);
        table := newtable;
      }
      grown := true;
    }

    /** wstk_hashtable_insert_destructor with WSTK_HASHTABLE_DUP_CHECK; the flags say which
        allocations succeed. */
    method Insert(k: HashKey, v: nat, owned: bool, tableAlloc: bool, reallocOk: bool, entryAlloc: bool)
      returns (ok: bool)
      requires Valid()
      modifies this, table
      ensures Valid() && (table == old(table) || fresh(table)) && ok == entryAlloc
      ensures var c := Canonical(mode, k);
              model == if ok then old(model)[c := Entry(k, v, HashOf(mode, k), owned)] else old(model) - {c}
    {
      BucketsNonempty(table[..], primeindex, loadlimit, model, mode);
      hide HashOf, Canonical, IndexFor, Buckets, Prime;
      var hashvalue := HashOf(mode, k);
      RebindKey(model, Canonical(mode, k), Entry(k, v, hashvalue, owned));
      var replaced := RemoveFrom(k, hashvalue, IndexFor(table.Length, hashvalue));
      ok := InsertNew(Entry(k, v, hashvalue, owned), tableAlloc, reallocOk, entryAlloc);
    }

    /** The insertion of an entry for a key that is not bound. */
    method InsertNew(e: Entry, tableAlloc: bool, reallocOk: bool, entryAlloc: bool) returns (ok: bool)
      requires Valid() && Canonical(mode, e.key) !in model && e.h == HashOf(mode, e.key)
      modifies this, table
      ensures Valid() && (table == old(table) || fresh(table)) && ok == entryAlloc
      ensures model == if ok then old(model)[Canonical(mode, e.key) := e] else old(model)
    {
      hide HashOf, Canonical, IndexFor, Buckets, Prime;
      entrycount := entrycount + 1;
      MakeRoom(tableAlloc, reallocOk);
      BucketsNonempty(table[..], primeindex, loadlimit, model, mode);
      var index := IndexFor(table.Length, e.h);
      if entryAlloc {
        Push(e, index);
      } else {
        entrycount := entrycount - 1;
      }
      ok := entryAlloc;
    }

    /** The table grows when the count goes over the limit; it is no error if it cannot. */
    method MakeRoom(tableAlloc: bool, reallocOk: bool)
      requires Sound()
      modifies this`table, this`primeindex, this`loadlimit, table
      ensures Sound() && (table == old(table) || fresh(table))
      ensures entrycount <= old(loadlimit) ==> table == old(table) && table[..] == old(table[..])
    {
      if entrycount > loadlimit {
        var grown := Expand(tableAlloc, reallocOk);
      }
    }

    /** The new entry becomes the head of its chain. */
    method Push(e: Entry, index: nat)
      requires Sound() && Canonical(mode, e.key) !in model && e.h == HashOf(mode, e.key)
      requires table.Length > 0 && index == IndexFor(table.Length, e.h)
      modifies table, this`model
      ensures Sound() && model == old(model)[Canonical(mode, e.key) := e] && |model| == |old(model)| + 1
    {
      hide HashOf, Canonical, IndexFor, Buckets, Prime;
      PushIn(table[..], primeindex, loadlimit, model, mode, e);
      ghost var t := table[..][index := [e] + table[index]];
      table[index] := [e] + table[index];
      assert table[..] == t;
      model := model[Canonical(mode, e.key) := e];
    }
  }

  /** The test of a chain walk: the hash values agree, and the keys are equal. */
  predicate Matches(e: Entry, k: HashKey, mode: Mode) {
    HashOf(mode, k) == e.h && Canonical(mode, k) == Canonical(mode, e.key)
  }

  lemma Hit(t: seq<Chain>, primeindex: nat, loadlimit: nat, m: Bindings, mode: Mode, k: HashKey, p: nat)
    requires Buckets(t, primeindex, loadlimit, m, mode)
    requires var chain := t[IndexFor(|t|, HashOf(mode, k))]; p < |chain| && Matches(chain[p], k, mode)
    ensures Canonical(mode, k) in m && m[Canonical(mode, k)] == t[IndexFor(|t|, HashOf(mode, k))][p]
  {
    hide HashOf, Canonical, IndexFor, Bag;
    var b := IndexFor(|t|, HashOf(mode, k));
    BagHas(t, b, t[b][p]);
  }

  lemma Miss(t: seq<Chain>, primeindex: nat, loadlimit: nat, m: Bindings, mode: Mode, k: HashKey)
    requires Buckets(t, primeindex, loadlimit, m, mode)
    requires var chain := t[IndexFor(|t|, HashOf(mode, k))];
             forall i :: 0 <= i < |chain| ==> !Matches(chain[i], k, mode)
    ensures Canonical(mode, k) !in m
  {
    hide HashOf, Canonical, IndexFor, Bag;
    if Canonical(mode, k) in m {
      var e := m[Canonical(mode, k)];
      EqualKeysHashAlike(mode, e.key, k);
      BoundInBag(Bag(t), m, mode, Canonical(mode, k));
      var b := BagFrom(t, e);
    }
  }

  /** Taking the entry of a key out of its bucket unbinds the key. */
  lemma TakeOut(t: seq<Chain>, primeindex: nat, loadlimit: nat, m: Bindings, mode: Mode, k: HashKey, p: nat)
    requires Buckets(t, primeindex, loadlimit, m, mode)
    requires var chain := t[IndexFor(|t|, HashOf(mode, k))]; p < |chain| && Matches(chain[p], k, mode)
    ensures var c, b := Canonical(mode, k), IndexFor(|t|, HashOf(mode, k));
            && c in m && m[c] == t[b][p] && |m - {c}| == |m| - 1
            && Buckets(t[b := Without(t[b], p)], primeindex, loadlimit, m - {c}, mode)
  {
    hide HashOf, Canonical, IndexFor, Bag, Represents;
    var c, b := Canonical(mode, k), IndexFor(|t|, HashOf(mode, k));
    var t' := t[b := Without(t[b], p)];
    Hit(t, primeindex, loadlimit, m, mode, k, p);
    BagTake(t, b, p);
    RepresentsTake(Bag(t), m, mode, t[b][p], Bag(t'));
    assert m.Keys == (m - {c}).Keys + {c};
  }

  /** Pushing an entry for an unbound key binds it. */
  lemma PushIn(t: seq<Chain>, primeindex: nat, loadlimit: nat, m: Bindings, mode: Mode, e: Entry)
    requires Buckets(t, primeindex, loadlimit, m, mode)
    requires e.h == HashOf(mode, e.key) && Canonical(mode, e.key) !in m
    ensures var c, b := Canonical(mode, e.key), IndexFor(|t|, e.h);
            && |m[c := e]| == |m| + 1
            && Buckets(t[b := [e] + t[b]], primeindex, loadlimit, m[c := e], mode)
  {
    hide HashOf, Canonical, IndexFor, Bag, Represents;
    var c, b := Canonical(mode, e.key), IndexFor(|t|, e.h);
    BagPush(t, b, e);
    RepresentsPush(Bag(t), m, mode, e);
    assert m[c := e].Keys == m.Keys + {c};
  }

  lemma SoundParts(t: seq<Chain>, primeindex: nat, loadlimit: nat, m: Bindings, mode: Mode)
    requires Buckets(t, primeindex, loadlimit, m, mode)
    ensures primeindex < PRIME_COUNT && |t| == Prime(primeindex) && loadlimit == LoadLimit(|t|)
    ensures primeindex < PRIME_COUNT - 1 ==> Prime(primeindex + 1) > |t| > 0
    ensures Placed(t) && Represents(Bag(t), m, mode)
  {
    if primeindex < PRIME_COUNT - 1 { PrimesGrow(primeindex); }
  }

  lemma SoundFrom(t: seq<Chain>, primeindex: nat, loadlimit: nat, m: Bindings, mode: Mode)
    requires primeindex < PRIME_COUNT && |t| == Prime(primeindex) && loadlimit == LoadLimit(|t|)
    requires Placed(t) && Represents(Bag(t), m, mode)
    ensures Buckets(t, primeindex, loadlimit, m, mode)
  {}

  lemma RebindKey(m: Bindings, c: HashKey, e: Entry)
    ensures (m - {c})[c := e] == m[c := e] && c !in m - {c}
  {}

  lemma NoEntries(t: seq<Chain>, primeindex: nat, loadlimit: nat, mode: Mode)
    requires primeindex < PRIME_COUNT && |t| == Prime(primeindex) && loadlimit == LoadLimit(|t|)
    requires forall b :: 0 <= b < |t| ==> t[b] == []
    ensures Buckets(t, primeindex, loadlimit, map[], mode)
  {
    hide HashOf, Canonical, Prime;
    BagEmpty(t);
  }

  lemma BucketsNonempty(t: seq<Chain>, primeindex: nat, loadlimit: nat, m: Bindings, mode: Mode)
    requires Buckets(t, primeindex, loadlimit, m, mode)
    ensures |t| > 0
  {}

  /** The walk along a chain, to the first match or the end. */
  method Walk(chain: Chain, k: HashKey, mode: Mode) returns (p: nat)
    ensures p <= |chain| && (p < |chain| ==> Matches(chain[p], k, mode))
    ensures forall i :: 0 <= i < p ==> !Matches(chain[i], k, mode)
  {
    hide Matches;
    p := 0;
    while p < |chain| && !Matches(chain[p], k, mode)
      invariant 0 <= p <= |chain|
      invariant forall i :: 0 <= i < p ==> !Matches(chain[i], k, mode)
    {
      p := p + 1;
    }
  }

  // ---- Growing ----

  /** The copying expansion: every entry is popped off its chain and pushed on its new one. */
  method CopyInto(table: array<Chain>, newsize: nat) returns (newtable: array<Chain>)
    requires newsize > 0
    modifies table
    ensures fresh(newtable) && newtable.Length == newsize
    ensures Placed(newtable[..]) && Bag(newtable[..]) == old(Bag(table[..]))
  {
    hide Bag, IndexFor, Placed;
    newtable := new Chain[newsize](_ => []);
    EmptyTable(newtable[..]);
    ghost var whole := Bag(table[..]);
    assert Bag(table[..]) + multiset{} == whole;
    var i := 0;
    while i < table.Length
      invariant 0 <= i <= table.Length
      invariant forall b :: 0 <= b < i ==> table[b] == []
      invariant Placed(newtable[..])
      invariant Bag(table[..]) + Bag(newtable[..]) == whole
    {
      TransferChain(table, i, newtable, whole);
      i := i + 1;
    }
    BagEmpty(table[..]);
    assert multiset{} + Bag(newtable[..]) == Bag(newtable[..]);
  }

  lemma EmptyTable(t: seq<Chain>)
    requires t != [] && forall b :: 0 <= b < |t| ==> t[b] == []
    ensures Placed(t) && Bag(t) == multiset{}
  {
    BagEmpty(t);
  }

  /** Its inner loop. */
  method TransferChain(table: array<Chain>, i: nat, newtable: array<Chain>, ghost whole: multiset<Entry>)
    requires table != newtable && i < table.Length && Placed(newtable[..])
    requires Bag(table[..]) + Bag(newtable[..]) == whole
    modifies table, newtable
    ensures table[..] == old(table[..])[i := []]
    ensures Placed(newtable[..]) && Bag(table[..]) + Bag(newtable[..]) == whole
  {
    hide Bag, IndexFor, Placed;
    while table[i] != []
      invariant table[..] == old(table[..])[i := table[i]]
      invariant Placed(newtable[..])
      invariant Bag(table[..]) + Bag(newtable[..]) == whole
      decreases |table[i]|
    {
      Transfer(table, i, newtable, whole);
    }
  }

  /** One turn of its inner loop. */
  method Transfer(table: array<Chain>, i: nat, newtable: array<Chain>, ghost whole: multiset<Entry>)
    requires table != newtable && i < table.Length && table[i] != [] && Placed(newtable[..])
    requires Bag(table[..]) + Bag(newtable[..]) == whole
    modifies table, newtable
    ensures table[..] == old(table[..])[i := old(table[i])[1..]]
    ensures Placed(newtable[..]) && Bag(table[..]) + Bag(newtable[..]) == whole
  {
    hide Bag, IndexFor;
    var e := table[i][0];
    ghost var t, n := table[..], newtable[..];
    table[i] := table[i][1..];
    var index := IndexFor(newtable.Length, e.h);
    newtable[index] := [e] + newtable[index];
    assert Without(t[i], 0) == t[i][1..];
    assert table[..] == t[i := Without(t[i], 0)];
    assert newtable[..] == n[index := [e] + n[index]];
    BagTake(t, i, 0);
    BagPush(n, index, e);
    assert Bag(table[..]) + (Bag(n) + multiset{e}) == (Bag(table[..]) + multiset{e}) + Bag(n);
  }

  /** realloc: the old chains, and empty ones behind them. */
  method Enlarge(table: array<Chain>, newsize: nat) returns (newtable: array<Chain>)
    requires newsize >= table.Length
    ensures fresh(newtable) && newtable.Length == newsize && Bag(newtable[..]) == Bag(table[..])
    ensures forall b :: table.Length <= b < newsize ==> newtable[b] == []
  {
    newtable := new Chain[newsize](_ => []);
    forall b | 0 <= b < table.Length {
      newtable[b] := table[b];
    }
    assert newtable[..] == table[..] + newtable[table.Length..];
    BagEmpty(newtable[table.Length..]);
    BagAppend(table[..], newtable[table.Length..]);
  }

  lemma BagCons(first: Chain, rest: seq<Chain>)
    ensures Bag([first] + rest) == multiset(first) + Bag(rest)
  {
    assert ([first] + rest)[1..] == rest;
  }

  lemma {:induction false} BagAppend(t: seq<Chain>, u: seq<Chain>)
    ensures Bag(t + u) == Bag(t) + Bag(u)
    decreases |t|
  {
    if t == [] {
      assert t + u == u;
    } else {
      hide Bag;
      var first, rest := t[0], t[1..];
      assert t == [first] + rest && t + u == [first] + (rest + u);
      BagCons(first, rest);
      BagCons(first, rest + u);
      BagAppend(rest, u);
      Associate(multiset(first), Bag(rest), Bag(u));
    }
  }

  /** The buckets that are already right while the in-place expansion is at bucket i, entry p. */
  ghost predicate Rearranged(t: seq<Chain>, oldsize: nat, i: nat, p: nat) {
    && t != []
    && (forall b, q :: 0 <= b < |t| && (b < i || b >= oldsize) && 0 <= q < |t[b]| ==> IndexFor(|t|, t[b][q].h) == b)
    && (i < |t| ==> p <= |t[i]| && forall q :: 0 <= q < p ==> IndexFor(|t|, t[i][q].h) == i)
  }

  /** The in-place expansion: entries that belong elsewhere are unlinked and pushed there, in front
      of chains that have been walked, are still to be walked, or are new. */
  method RearrangeInPlace(table: array<Chain>, oldsize: nat)
    requires 0 < oldsize <= table.Length && forall b :: oldsize <= b < table.Length ==> table[b] == []
    modifies table
    ensures Placed(table[..]) && Bag(table[..]) == old(Bag(table[..]))
  {
    var i := 0;
    assert Rearranged(table[..], oldsize, 0, 0);
    while i < oldsize
      invariant 0 <= i <= oldsize
      invariant Rearranged(table[..], oldsize, i, 0)
      invariant Bag(table[..]) == old(Bag(table[..]))
    {
      hide IndexFor, Bag, Rearranged;
      RearrangeChain(table, oldsize, i);
      i := i + 1;
    }
  }

  /** Its inner loop. */
  method RearrangeChain(table: array<Chain>, oldsize: nat, i: nat)
    requires i < oldsize <= table.Length && Rearranged(table[..], oldsize, i, 0)
    modifies table
    ensures Rearranged(table[..], oldsize, i + 1, 0) && Bag(table[..]) == old(Bag(table[..]))
  {
    hide IndexFor, Bag, Rearranged;
    var p := 0;
    while p < |table[i]|
      invariant 0 <= p <= |table[i]| && Rearranged(table[..], oldsize, i, p)
      invariant Bag(table[..]) == old(Bag(table[..]))
      decreases |table[i]| - p
    {
      var e := table[i][p];
      var index := IndexFor(table.Length, e.h);
      if index == i {
        RearrangedKeep(table[..], oldsize, i, p);
        p := p + 1;
      } else {
        ghost var t := table[..];
        RearrangedMove(t, oldsize, i, p);
        BagMove(t, i, p, index);
        table[i] := Without(table[i], p);
        table[index] := [e] + table[index];
        assert table[..] == t[i := Without(t[i], p)][index := [e] + t[index]];
      }
    }
    RearrangedEnd(table[..], oldsize, i, p);
  }

  lemma RearrangedKeep(t: seq<Chain>, oldsize: nat, i: nat, p: nat)
    requires Rearranged(t, oldsize, i, p) && i < oldsize <= |t| && p < |t[i]| && IndexFor(|t|, t[i][p].h) == i
    ensures Rearranged(t, oldsize, i, p + 1)
  {
    hide IndexFor;
  }

  lemma RearrangedMove(t: seq<Chain>, oldsize: nat, i: nat, p: nat)
    requires Rearranged(t, oldsize, i, p) && i < oldsize <= |t| && p < |t[i]| && IndexFor(|t|, t[i][p].h) != i
    ensures var e := t[i][p];
            var index := IndexFor(|t|, e.h);
            Rearranged(t[i := Without(t[i], p)][index := [e] + t[index]], oldsize, i, p)
  {
    hide IndexFor;
  }

  lemma RearrangedEnd(t: seq<Chain>, oldsize: nat, i: nat, p: nat)
    requires Rearranged(t, oldsize, i, p) && i < oldsize <= |t| && p == |t[i]|
    ensures Rearranged(t, oldsize, i + 1, 0)
  {
    hide IndexFor;
  }

  // ---- Iterating ----

  function Flatten(t: seq<Chain>): seq<Entry> {
    if t == [] then [] else t[0] + Flatten(t[1..])
  }

  lemma {:induction false} FlattenBag(t: seq<Chain>)
    ensures multiset(Flatten(t)) == Bag(t)
    decreases |t|
  {
    if t != [] { FlattenBag(t[1..]); }
  }

  lemma FlattenStep(t: seq<Chain>, pos: nat)
    requires pos < |t|
    ensures Flatten(t[pos..]) == t[pos] + Flatten(t[pos + 1..]) == From(t, pos, 0)
  {
    assert t[pos..][1..] == t[pos + 1..];
  }

  lemma FromStep(t: seq<Chain>, pos: nat, p: nat)
    requires pos < |t| && p <= |t[pos]|
    ensures p < |t[pos]| ==> From(t, pos, p) == [t[pos][p]] + From(t, pos, p + 1)
    ensures p == |t[pos]| ==> From(t, pos, p) == Flatten(t[pos + 1..])
  {
    if p < |t[pos]| { assert t[pos][p..] == [t[pos][p]] + t[pos][p + 1..]; }
  }

  /** What an iterator at entry p of bucket `pos` still has in front of it. */
  function From(t: seq<Chain>, pos: nat, p: nat): seq<Entry>
    requires pos < |t| && p <= |t[pos]|
  {
    t[pos][p..] + Flatten(t[pos + 1..])
  }

  class Iterator {
    const h: Table
    var pos: nat
    /** The current entry of the bucket, if there is one. */
    var e: Option<nat>

    constructor (h: Table)
      ensures this.h == h && pos == 0 && e == None
    {
      this.h := h;
      pos, e := 0, None;
    }

    ghost predicate Valid()
      reads this, h, h.table
    {
      if e.Some? then pos < h.table.Length && e.value < |h.table[pos]| else pos <= h.table.Length
    }

    /** The entries that `Next` has yet to reach. */
    ghost function Ahead(): seq<Entry>
      reads this, h, h.table
      requires Valid()
    {
      if e.Some? then From(h.table[..], pos, e.value + 1) else Flatten(h.table[pos..])
    }

    /** The entry the iterator stands on. */
    function Current(): Entry
      reads this, h, h.table
      requires Valid() && e.Some?
    {
      h.table[pos][e.value]
    }

    /** wstk_hashtable_next; false when the iterator is used up. */
    method Next() returns (more: bool)
      requires Valid()
      modifies `pos, `e
      ensures more <==> old(Ahead()) != []
      ensures more ==> Valid() && e.Some? && old(Ahead()) == [Current()] + Ahead()
    {
      hide Flatten, From;
      ghost var t, ahead := h.table[..], Ahead();
      if e.Some? {
        FromStep(t, pos, e.value + 1);
        if e.value + 1 < |h.table[pos]| {
          e := Some(e.value + 1);
          return true;
        }
        pos, e := pos + 1, None;
        assert t[pos..] == h.table[pos..];
      }
      while pos < h.table.Length && h.table[pos] == []
        invariant pos <= h.table.Length && Flatten(t[pos..]) == ahead
        decreases h.table.Length - pos
      {
        FlattenStep(t, pos);
        FromStep(t, pos, 0);
        pos := pos + 1;
      }
      if pos >= h.table.Length {
        NothingAhead(t);
        return false;
      }
      FlattenStep(t, pos);
      FromStep(t, pos, 0);
      e := Some(0);
      more := true;
    }
  }

  lemma NothingAhead(t: seq<Chain>)
    ensures Flatten(t[|t|..]) == []
  {}

  /** The walk from wstk_hashtable_first_iter on. */
  method Collect(h: Table) returns (entries: seq<Entry>)
    ensures entries == Flatten(h.table[..])
  {
    hide Flatten, From;
    var i := new Iterator(h);
    entries := [];
    assert h.table[0..] == h.table[..];
    ghost var all := Flatten(h.table[..]);
    assert i.Ahead() == all;
    var more := i.Next();
    while more
      invariant more ==> i.Valid() && i.e.Some? && all == entries + ([i.Current()] + i.Ahead())
      invariant !more ==> all == entries
      decreases more, if more then |i.Ahead()| else 0
    {
      ghost var ahead := i.Ahead();
      assert all == entries + [i.Current()] + ahead;
      entries := entries + [i.Current()];
      more := i.Next();
    }
  }

  /** A full iteration yields every binding of the map exactly once. */
  method Traverse(h: Table) returns (entries: seq<Entry>)
    requires h.Valid()
    ensures forall c :: c in h.model ==> multiset(entries)[h.model[c]] == 1
    ensures forall e :: e in entries ==> Binds(h.model, e, h.mode)
    ensures |entries| == h.entrycount
  {
    hide Flatten, Bag, Represents, Placed, HashOf, Canonical, Prime;
    entries := Collect(h);
    FlattenBag(h.table[..]);
    h.CountsEntries();
    TraversedAll(h.table[..], h.model, h.mode, entries);
  }

  lemma TraversedAll(t: seq<Chain>, m: Bindings, mode: Mode, entries: seq<Entry>)
    requires Represents(Bag(t), m, mode) && multiset(entries) == Bag(t)
    ensures |entries| == |Bag(t)|
    ensures forall c :: c in m ==> multiset(entries)[m[c]] == 1
    ensures forall e :: e in entries ==> Binds(m, e, mode)
  {
    forall c | c in m
      ensures multiset(entries)[m[c]] == 1
    {
      BoundInBag(Bag(t), m, mode, c);
    }
    hide Bag, HashOf, Canonical;
    forall e | e in entries
      ensures Binds(m, e, mode)
    {
      assert e in multiset(entries);
      assert Bag(t)[e] > 0;
    }
  }

  /** wstk_hash_is_empty. */
  method IsEmpty(h: Table) returns (empty: bool)
    requires h.Valid()
    ensures empty <==> h.model == map[]
  {
    var i := new Iterator(h);
    assert h.table[0..] == h.table[..];
    var more := i.Next();
    FlattenBag(h.table[..]);
    h.CountsEntries();
    empty := !more;
  }

  /** wstk_hashtable_create: more than 2^30 buckets are refused. */
  method Create(minsize: nat, mode: Mode) returns (h: Table?)
    ensures h == null <==> minsize > 0x4000_0000
    ensures h != null ==> fresh(h) && fresh(h.table) && h.Valid() && h.mode == mode && h.model == map[]
  {
    h := null;
    if minsize <= 0x4000_0000 {
      h := new Table(minsize, mode);
    }
  }

  // ---- Whole runs ----

  /** A call on a table; the flags of an insertion are the answers of the allocator. */
  datatype Call =
    | Put(key: HashKey, value: nat, owned: bool, tableAlloc: bool, reallocOk: bool, entryAlloc: bool)
    | Delete(key: HashKey)
    | Get(key: HashKey)

  datatype Answer = Stored(ok: bool) | Found(value: Option<nat>)

  /** What each call would answer on a map, and what it would make of the map. */
  function Answered(m: Bindings, mode: Mode, call: Call): Answer {
    var c := Canonical(mode, call.key);
    match call
    case Put(_, _, _, _, _, entryAlloc) => Stored(entryAlloc)
    case Delete(_) => Found(if c in m && !m[c].owned then Some(m[c].value) else None)
    case Get(_) => Found(if c in m then Some(m[c].value) else None)
  }

  function Updated(m: Bindings, mode: Mode, call: Call): Bindings {
    var c := Canonical(mode, call.key);
    match call
    case Put(key, value, owned, _, _, true) => m[c := Entry(key, value, HashOf(mode, key), owned)]
    case Get(_) => m
    case _ => m - {c}
  }

  function UpdatedBy(m: Bindings, mode: Mode, calls: seq<Call>): Bindings {
    if calls == [] then m else Updated(UpdatedBy(m, mode, calls[..|calls| - 1]), mode, calls[|calls| - 1])
  }

  method Perform(h: Table, call: Call) returns (answer: Answer)
    requires h.Valid()
    modifies h, h.table
    ensures h.Valid() && (h.table == old(h.table) || fresh(h.table))
    ensures answer == Answered(old(h.model), h.mode, call) && h.model == Updated(old(h.model), h.mode, call)
  {
    hide Canonical, HashOf;
    match call {
      case Put(key, value, owned, tableAlloc, reallocOk, entryAlloc) =>
        var ok := h.Insert(key, value, owned, tableAlloc, reallocOk, entryAlloc);
        answer := Stored(ok);
      case Delete(key) =>
        var v := h.Remove(key);
        answer := Found(v);
      case Get(key) =>
        var v := h.Find(key);
        answer := Found(v);
    }
  }

  function AnswersTo(m: Bindings, mode: Mode, calls: seq<Call>): seq<Answer> {
    if calls == [] then []
    else
      var before := calls[..|calls| - 1];
      AnswersTo(m, mode, before) + [Answered(UpdatedBy(m, mode, before), mode, calls[|calls| - 1])]
  }

  lemma OneMoreCall(m: Bindings, mode: Mode, calls: seq<Call>, k: nat)
    requires k < |calls|
    ensures var now := UpdatedBy(m, mode, calls[..k]);
            && UpdatedBy(m, mode, calls[..k + 1]) == Updated(now, mode, calls[k])
            && AnswersTo(m, mode, calls[..k + 1]) == AnswersTo(m, mode, calls[..k]) + [Answered(now, mode, calls[k])]
  {
    hide Answered, Updated;
    assert calls[..k + 1][..k] == calls[..k];
  }

  /** Any run of calls on a new table answers as a map does, and the final count is the size of the map
      that the same run makes of an empty one. */
  method PerformAll(minsize: nat, mode: Mode, calls: seq<Call>) returns (answers: seq<Answer>, count: nat)
    requires minsize <= 0x4000_0000
    ensures answers == AnswersTo(map[], mode, calls)
    ensures count == |UpdatedBy(map[], mode, calls)|
  {
    var h := new Table(minsize, mode);
    answers := [];
    assert calls[..0] == [];
    hide Answered, Updated, Canonical, HashOf, Buckets;
    for k := 0 to |calls|
      invariant fresh(h) && fresh(h.table) && h.Valid() && h.mode == mode
      invariant h.model == UpdatedBy(map[], mode, calls[..k]) && answers == AnswersTo(map[], mode, calls[..k])
    {
      OneMoreCall(map[], mode, calls, k);
      var answer := Perform(h, calls[k]);
      answers := answers + [answer];
    }
    assert calls[..|calls|] == calls;
    count := h.entrycount;
  }
}
