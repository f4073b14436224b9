/** JSON pointers, RFC 6901: writing and following them. */
module JsonPointer {
  import opened CTypes
  import opened Names
  import opened Numerals
  import opened Sorting
  import opened Json

  const SLASH: cchar := 47
  const ONE: cchar := 49
  const NINE: cchar := 57
  const TILDE: cchar := 126

  type Path = seq<nat>

  function Children(j: Json): seq<Json> {
    match j
    case Array(items) => items
    case Object(members) => seq(|members|, i requires 0 <= i < |members| => members[i].value)
    case _ => []
  }

  lemma ChildSmaller(j: Json, i: nat)
    requires i < |Children(j)|
    ensures Size(Children(j)[i]) < Size(j)
  {
    if j.Array? { ItemSmaller(j.items, i); } else { MemberSmaller(j.members, j.members[i]); }
  }

  predicate ValidPath(j: Json, path: Path)
    decreases |path|
  {
    path == [] || (path[0] < |Children(j)| && ValidPath(Children(j)[path[0]], path[1..]))
  }

  function At(j: Json, path: Path): Json
    requires ValidPath(j, path)
    decreases |path|
  {
    if path == [] then j else At(Children(j)[path[0]], path[1..])
  }

  // ---- Writing pointers ----

  /** encode_string_as_pointer. */
  function Encode(name: cstring): cstring {
    if name == [] then []
    else (if name[0] == SLASH then [TILDE, ONE] else if name[0] == TILDE then [TILDE, ZERO] else [name[0]]) +
         Encode(name[1..])
  }

  /** The reference token of a child; an array index must be an unsigned long. */
  function TokenOf(j: Json, i: nat): Option<cstring>
    requires i < |Children(j)|
  {
    if j.Array? then (if i < TWO_64 then Some(Decimal(i)) else None) else Some(Encode(j.members[i].name))
  }

  /** The pointer of a node: a slash and a token for each step of its path. */
  function PointerTo(j: Json, path: Path): Option<cstring>
    requires ValidPath(j, path)
    decreases |path|
  {
    if path == [] then Some([])
    else
      var rest := PointerTo(Children(j)[path[0]], path[1..]);
      if rest.None? || TokenOf(j, path[0]).None? then None
      else Some([SLASH] + TokenOf(j, path[0]).value + rest.value)
  }

  // ---- Following pointers ----

  /** Where the token starting at i ends: at the next slash or at the end of the text. */
  function TokenEnd(s: cstring, i: nat): (r: nat)
    requires i <= |s|
    ensures i <= r <= |s|
    decreases |s| - i
  {
    if i == |s| || s[i] == SLASH then i else TokenEnd(s, i + 1)
  }

  /** The tokens of a pointer from position i on; a text that does not go on with a slash has none. */
  function TokensFrom(s: cstring, i: nat): seq<cstring>
    requires i <= |s|
    decreases |s| - i
  {
    if i == |s| || s[i] != SLASH then []
    else
      var e := TokenEnd(s, i + 1);
      [s[i + 1..e]] + TokensFrom(s, e)
  }

  function Tokens(s: cstring): seq<cstring> { TokensFrom(s, 0) }

  predicate SameChar(a: cchar, b: cchar, cs: bool) {
    if cs then a == b else ToLower(a) == ToLower(b)
  }

  /** compare_pointers on a name and one token. */
  predicate MatchesToken(name: cstring, token: cstring, cs: bool)
    decreases |token|
  {
    if name == [] || token == [] then name == [] && token == []
    else if token[0] == TILDE then
      && |token| > 1
      && ((token[1] == ZERO && name[0] == TILDE) || (token[1] == ONE && name[0] == SLASH))
      && MatchesToken(name[1..], token[2..], cs)
    else SameChar(name[0], token[0], cs) && MatchesToken(name[1..], token[1..], cs)
  }

  /** The digits of a token as a size_t, which wraps around. */
  function IndexValue(token: cstring): int {
    if token == [] then 0
    else (10 * IndexValue(token[..|token| - 1]) + token[|token| - 1] - ZERO) % TWO_64
  }

  /** decode_array_index_from_pointer: the loop compares the first character with '9', not the
      current one, so anything from '0' upwards continues an index. */
  function DecodeIndex(token: cstring): Option<int> {
    if |token| > 1 && token[0] == ZERO then None
    else if token != [] && token[0] > NINE then None
    else if exists k :: 0 <= k < |token| && token[k] < ZERO then None
    else Some(IndexValue(token))
  }

  function FirstMatch(members: seq<Member>, token: cstring, cs: bool): (r: Option<nat>)
    ensures r.Some? ==> r.value < |members|
  {
    if members == [] then None
    else if MatchesToken(members[0].name, token, cs) then Some(0)
    else
      match FirstMatch(members[1..], token, cs)
      case None => None
      case Some(i) => Some(i + 1)
  }

  /** One step of get_item_from_pointer: the child a token names. */
  function StepInto(j: Json, token: cstring, cs: bool): (r: Option<nat>)
    ensures r.Some? ==> r.value < |Children(j)|
  {
    match j
    case Array(items) =>
      var i := DecodeIndex(token);
      if i.Some? && 0 <= i.value < |items| then Some(i.value) else None
    case Object(members) => FirstMatch(members, token, cs)
    case _ => None
  }

  function Walk(j: Json, tokens: seq<cstring>, cs: bool): (r: Option<Path>)
    ensures r.Some? ==> ValidPath(j, r.value)
    decreases |tokens|
  {
    if tokens == [] then Some([])
    else
      match StepInto(j, tokens[0], cs)
      case None => None
      case Some(i) =>
        Under([i], Walk(Children(j)[i], tokens[1..], cs))
  }

  /** A path found below another path. */
  function Under(path: Path, r: Option<Path>): Option<Path> {
    if r.None? then None else Some(path + r.value)
  }

  lemma UnderNothing(path: Path)
    ensures Under(path, Some([])) == Some(path) && Under(path, None) == None
  {
    assert path + [] == path;
  }

  lemma UnderUnder(path: Path, i: nat, r: Option<Path>)
    ensures Under(path, Under([i], r)) == Under(path + [i], r)
    ensures Under([], r) == r
  {
    if r.Some? {
      assert path + ([i] + r.value) == path + [i] + r.value;
      assert [] + r.value == r.value;
    }
  }

  /** get_item_from_pointer. */
  function Resolve(j: Json, pointer: cstring, cs: bool): (r: Option<Path>)
    ensures r.Some? ==> ValidPath(j, r.value)
  {
    Walk(j, Tokens(pointer), cs)
  }

  // ---- Names survive encoding ----

  lemma SameKeyCons(a: cstring, b: cstring, cs: bool)
    ensures a == [] || b == [] ==> (SameKey(a, b, cs) <==> a == [] && b == [])
    ensures a != [] && b != [] ==> (SameKey(a, b, cs) <==> SameChar(a[0], b[0], cs) && SameKey(a[1..], b[1..], cs))
  {
    hide Key, ToLower;
    KeyLength(a, cs);
    KeyLength(b, cs);
    if a != [] && b != [] {
      KeyCons(a, cs);
      KeyCons(b, cs);
      ConsEqual(Key(a, cs), Key(b, cs));
    }
  }

  lemma ConsEqual(x: cstring, y: cstring)
    requires x != [] && y != []
    ensures x == y <==> x[0] == y[0] && x[1..] == y[1..]
  {
    assert x == [x[0]] + x[1..] && y == [y[0]] + y[1..];
  }

  lemma KeyLength(a: cstring, cs: bool)
    ensures |Key(a, cs)| == |a|
  {}

  lemma KeyCons(a: cstring, cs: bool)
    requires a != []
    ensures |Key(a, cs)| == |a| && Key(a, cs)[0] == (if cs then a[0] else ToLower(a[0]))
    ensures Key(a, cs)[1..] == Key(a[1..], cs)
  {
    hide ToLower;
  }

  /** A name matches an encoded name exactly when the two are the same name. */
  lemma {:induction false} MatchesEncoded(name: cstring, k: cstring, cs: bool)
    ensures MatchesToken(name, Encode(k), cs) <==> SameKey(name, k, cs)
    decreases |k|
  {
    hide SameKey;
    SameKeyCons(name, k, cs);
    if name != [] && k != [] {
      MatchesEncoded(name[1..], k[1..], cs);
      var e := Encode(k);
      if k[0] == SLASH || k[0] == TILDE {
        assert e[2..] == Encode(k[1..]);
        assert SameChar(name[0], k[0], cs) <==> name[0] == k[0];
      } else {
        assert e[1..] == Encode(k[1..]);
      }
    }
  }

  /** A token that is no encoding matches no name: whatever matches is an encoding of a name that is the same. */
  lemma {:induction false} MatchedIsEncoded(name: cstring, token: cstring, cs: bool) returns (k: cstring)
    requires MatchesToken(name, token, cs) && SLASH !in token
    ensures token == Encode(k) && SameKey(name, k, cs)
    decreases |token|
  {
    hide SameKey;
    if token == [] {
      k := [];
      SameKeyReflexive(name, cs);
    } else {
      var n := if token[0] == TILDE then 2 else 1;
      var rest := MatchedIsEncoded(name[1..], token[n..], cs);
      k := [if token[0] == TILDE then name[0] else token[0]] + rest;
      assert k[1..] == rest;
      SameKeyCons(name, k, cs);
      assert token == token[..n] + token[n..];
      assert n == 2 ==> token[..2] == [token[0], token[1]];
    }
  }

  /** A token, which holds no slash, matches a name exactly when it encodes the name, or one that is the same in the
      mode. */
  lemma MatchesIff(name: cstring, token: cstring, cs: bool)
    requires SLASH !in token
    ensures MatchesToken(name, token, cs) <==> exists k :: token == Encode(k) && SameKey(name, k, cs)
  {
    hide MatchesToken, SameKey, Encode;
    if MatchesToken(name, token, cs) {
      var k := MatchedIsEncoded(name, token, cs);
    }
    forall k | token == Encode(k) && SameKey(name, k, cs)
      ensures MatchesToken(name, token, cs)
    {
      MatchesEncoded(name, k, cs);
    }
  }

  /** Encoding goes character by character, as RFC 6901 section 3 asks: a tilde becomes "~0", a slash "~1", and
      everything else stays as it is. */
  lemma {:induction false} EncodeJoins(a: cstring, b: cstring)
    ensures Encode(a + b) == Encode(a) + Encode(b)
    decreases |a|
  {
    if a == [] {
      assert a + b == b;
    } else {
      EncodeJoins(a[1..], b);
      assert (a + b)[1..] == a[1..] + b;
    }
  }

  lemma EncodeCharacter(c: cchar)
    ensures c == '~' as int ==> Spelled(Encode([c]), "~0")
    ensures c == '/' as int ==> Spelled(Encode([c]), "~1")
    ensures c as char !in "~/" ==> Encode([c]) == [c]
  {
    assert ([c])[1..] == [];
  }

  lemma {:induction false} EncodeNoSlash(name: cstring)
    ensures SLASH !in Encode(name)
    ensures name != [] ==> Encode(name) != []
  {
    if name != [] { EncodeNoSlash(name[1..]); }
  }

  // ---- Indices survive printing ----

  predicate AllDigits(s: cstring) {
    forall k :: 0 <= k < |s| ==> '0' as int <= s[k] <= '9' as int
  }

  lemma {:induction false} DecimalDigits(n: nat)
    ensures AllDigits(Decimal(n)) && (Decimal(n)[0] == ZERO ==> n == 0) && (n < 10 <==> |Decimal(n)| == 1)
  {
    if n >= 10 { DecimalDigits(n / 10); }
  }

  lemma {:induction false} DecimalValue(n: nat)
    requires n < TWO_64
    ensures IndexValue(Decimal(n)) == n
  {
    if n >= 10 {
      var front := Decimal(n / 10);
      DecimalValue(n / 10);
      assert (front + [ZERO + n % 10])[..|front|] == front;
    } else {
      assert [ZERO + n][..0] == [];
    }
  }

  lemma DecodeDecimal(n: nat)
    requires n < TWO_64
    ensures DecodeIndex(Decimal(n)) == Some(n as int) && SLASH !in Decimal(n)
  {
    DecimalDigits(n);
    DecimalValue(n);
  }

  /** RFC 6901 section 4: an array index is a zero, or digits without a leading zero. */
  predicate IsIndex(token: cstring) {
    token != [] && AllDigits(token) && (token[0] == ZERO ==> |token| == 1)
  }

  /** What the code accepts beyond that: the empty token, and anything from '0' up after a first digit. */
  lemma IndexAccepted(token: cstring)
    ensures IsIndex(token) ==> DecodeIndex(token).Some?
    ensures DecodeIndex(token).Some? && !IsIndex(token) <==>
            token == [] || ('1' as int <= token[0] <= '9' as int && !AllDigits(token) &&
                            forall k :: 0 <= k < |token| ==> token[k] >= '0' as int)
  {
    if token != [] && DecodeIndex(token).Some? && token[0] == ZERO {
      assert |token| == 1;
      assert AllDigits(token);
    }
  }

  // ---- Texts and tokens ----

  lemma {:induction false} TokenEndAt(s: cstring, i: nat, e: nat)
    requires i <= e <= |s| && (e < |s| ==> s[e] == SLASH) && forall k :: i <= k < e ==> s[k] != SLASH
    ensures TokenEnd(s, i) == e
    decreases e - i
  {
    if i < e { TokenEndAt(s, i + 1, e); }
  }

  predicate IsPointer(s: cstring) {
    s == [] || s[0] == SLASH
  }

  lemma {:induction false} TokensSuffix(x: cstring, y: cstring, i: nat)
    requires i <= |y|
    ensures TokensFrom(x + y, |x| + i) == TokensFrom(y, i)
    decreases |y| - i
  {
    hide TokenEnd;
    if i < |y| && y[i] == SLASH {
      var e := TokenEnd(y, i + 1);
      TokenEndSuffix(x, y, i + 1);
      TokensSuffix(x, y, e);
      SliceSuffix(x, y, i + 1, e);
      hide TokensFrom;
      TokensStep(y, i);
      TokensStep(x + y, |x| + i);
    }
  }

  lemma SliceSuffix(x: cstring, y: cstring, i: nat, e: nat)
    requires i <= e <= |y|
    ensures (x + y)[|x| + i..|x| + e] == y[i..e]
  {}

  lemma TokensStep(s: cstring, i: nat)
    requires i < |s| && s[i] == SLASH
    ensures var e := TokenEnd(s, i + 1); TokensFrom(s, i) == [s[i + 1..e]] + TokensFrom(s, e)
  {
    hide TokenEnd;
  }

  lemma {:induction false} TokenEndSuffix(x: cstring, y: cstring, i: nat)
    requires i <= |y|
    ensures TokenEnd(x + y, |x| + i) == |x| + TokenEnd(y, i)
    decreases |y| - i
  {
    if i < |y| && y[i] != SLASH { TokenEndSuffix(x, y, i + 1); }
  }

  lemma {:induction false} TokenEndSound(s: cstring, i: nat)
    requires i <= |s|
    ensures var e := TokenEnd(s, i);
            (e < |s| ==> s[e] == SLASH) && forall k :: i <= k < e ==> s[k] != SLASH
    decreases |s| - i
  {
    if i < |s| && s[i] != SLASH { TokenEndSound(s, i + 1); }
  }

  /** Appending pointers appends their tokens. */
  lemma {:induction false} TokensAppend(x: cstring, y: cstring, i: nat)
    requires i <= |x| && (i < |x| ==> x[i] == SLASH) && IsPointer(y)
    ensures TokensFrom(x + y, i) == TokensFrom(x, i) + Tokens(y)
    decreases |x| - i
  {
    hide TokenEnd, TokensFrom;
    if i == |x| {
      TokensSuffix(x, y, 0);
      TokensNone(x);
    } else {
      var e := TokenEnd(x, i + 1);
      TokenEndSound(x, i + 1);
      TokensAppend(x, y, e);
      TokensAt(x, i, e);
      TokensAt(x + y, i, e);
      var token, tail := x[i + 1..e], TokensFrom(x, e);
      assert (x + y)[i + 1..e] == token;
      assert [token] + (tail + Tokens(y)) == [token] + tail + Tokens(y);
    }
  }

  lemma TokensNone(s: cstring)
    ensures TokensFrom(s, |s|) == []
  {}

  lemma TokensAt(s: cstring, i: nat, e: nat)
    requires i < e <= |s| && s[i] == SLASH
    requires (e < |s| ==> s[e] == SLASH) && forall k :: i < k < e ==> s[k] != SLASH
    ensures TokensFrom(s, i) == [s[i + 1..e]] + TokensFrom(s, e)
  {
    TokenEndAt(s, i + 1, e);
  }

  lemma TokensOne(token: cstring)
    requires SLASH !in token
    ensures Tokens([SLASH] + token) == [token]
  {
    var s := [SLASH] + token;
    assert forall k :: 1 <= k < |s| ==> s[k] == token[k - 1];
    TokenEndAt(s, 1, |s|);
    assert s[1..|s|] == token && TokensFrom(s, |s|) == [];
  }

  lemma TokensSnoc(pointer: cstring, token: cstring)
    requires IsPointer(pointer) && SLASH !in token
    ensures Tokens(pointer + [SLASH] + token) == Tokens(pointer) + [token]
  {
    TokensOne(token);
    TokensAppend(pointer, [SLASH] + token, 0);
    assert pointer + [SLASH] + token == pointer + ([SLASH] + token);
  }

  lemma TokensCons(token: cstring, rest: cstring)
    requires SLASH !in token && IsPointer(rest)
    ensures Tokens([SLASH] + token + rest) == [token] + Tokens(rest)
  {
    TokensOne(token);
    TokensAppend([SLASH] + token, rest, 0);
  }

  lemma {:induction false} PointerToIsPointer(j: Json, path: Path)
    requires ValidPath(j, path) && PointerTo(j, path).Some?
    ensures IsPointer(PointerTo(j, path).value)
  {}

  // ---- The pointer of a node finds that node ----

  lemma {:induction false} FirstMatchEncoded(members: seq<Member>, name: cstring, cs: bool)
    ensures FirstMatch(members, Encode(name), cs) == Lookup(members, name, cs)
  {
    hide SameKey, MatchesToken, Encode;
    if members != [] {
      MatchesEncoded(members[0].name, name, cs);
      SameKeySymmetric(members[0].name, name, cs);
      FirstMatchEncoded(members[1..], name, cs);
    }
  }

  /** No object on the way has an earlier member of the name the path goes through. */
  predicate Unshadowed(j: Json, path: Path, cs: bool)
    requires ValidPath(j, path)
    decreases |path|
  {
    path != [] ==>
      && (j.Object? ==> forall k :: 0 <= k < path[0] ==> !SameKey(j.members[k].name, j.members[path[0]].name, cs))
      && Unshadowed(Children(j)[path[0]], path[1..], cs)
  }

  lemma StepIntoToken(j: Json, i: nat, cs: bool)
    requires i < |Children(j)| && TokenOf(j, i).Some?
    ensures SLASH !in TokenOf(j, i).value
    ensures StepInto(j, TokenOf(j, i).value, cs).Some?
    ensures StepInto(j, TokenOf(j, i).value, cs) == Some(i) <==>
            (j.Object? ==> forall k :: 0 <= k < i ==> !SameKey(j.members[k].name, j.members[i].name, cs))
  {
    hide SameKey, Encode, Decimal, IndexValue, DecodeIndex, Lookup, FirstMatch;
    if j.Array? {
      DecodeDecimal(i);
    } else {
      var name := j.members[i].name;
      EncodeNoSlash(name);
      FirstMatchEncoded(j.members, name, cs);
      LookupFirst(j.members, name, cs);
      var r := Lookup(j.members, name, cs);
      SameKeyReflexive(name, cs);
      assert r.Some? && r.value <= i;
      forall k | 0 <= k < |j.members|
        ensures SameKey(j.members[k].name, name, cs) <==> SameKey(name, j.members[k].name, cs)
      {
        SameKeySymmetric(j.members[k].name, name, cs);
      }
    }
  }

  lemma SameKeyReflexive(name: cstring, cs: bool)
    ensures SameKey(name, name, cs)
  {}

  /** Following the pointer of a node leads back to that node, and to no other, exactly when no
      object on the way has an earlier member of the same name. */
  lemma {:induction false} PointerRoundTrip(j: Json, path: Path, cs: bool)
    requires ValidPath(j, path) && PointerTo(j, path).Some?
    ensures Resolve(j, PointerTo(j, path).value, cs) == Some(path) <==> Unshadowed(j, path, cs)
    decreases |path|
  {
    hide SameKey, StepInto, TokenOf;
    if path != [] {
      var i, child := path[0], Children(j)[path[0]];
      var token, rest := TokenOf(j, i).value, PointerTo(child, path[1..]).value;
      StepIntoToken(j, i, cs);
      PointerToIsPointer(child, path[1..]);
      TokensCons(token, rest);
      PointerRoundTrip(child, path[1..], cs);
      assert path == [i] + path[1..];
      var r := Resolve(j, PointerTo(j, path).value, cs);
      assert r.Some? ==> r.value != [];
    }
  }

  /** With distinct names throughout, every node is found again. */
  lemma {:induction false} DistinctUnshadowed(j: Json, path: Path, cs: bool)
    requires ValidPath(j, path) && DistinctNames(j, cs)
    ensures Unshadowed(j, path, cs)
    decreases |path|
  {
    hide SameKey;
    if path != [] {
      if j.Object? {
        forall k | 0 <= k < path[0]
          ensures !SameKey(j.members[k].name, j.members[path[0]].name, cs)
        {
          assert !SameKey(NameOf(j.members[k]), NameOf(j.members[path[0]]), cs);
        }
      }
      DistinctUnshadowed(Children(j)[path[0]], path[1..], cs);
    }
  }

  // ---- The functions as they are written ----

  /** cJSONUtils_FindPointerFromObjectTo: search all children for the target. */
  method FindPointer(root: Json, here: Path, target: Path) returns (r: Option<cstring>)
    ensures r == if here <= target && ValidPath(root, target[|here|..]) then PointerTo(root, target[|here|..]) else None
    decreases Size(root)
  {
    if here == target {
      return Some([]);
    }
    var i := 0;
    while i < |Children(root)|
      invariant 0 <= i <= |Children(root)|
      invariant here < target && ValidPath(root, target[|here|..]) ==>
                  target[|here|] >= i || PointerTo(root, target[|here|..]).None?
    {
      ChildSmaller(root, i);
      var found := FindPointer(Children(root)[i], here + [i], target);
      if here < target {
        assert target[|here|..][1..] == target[|here + [i]|..];
        assert here + [i] <= target <==> target[|here|] == i;
      }
      if found.Some? {
        match root {
          case Array(_) =>
            if i >= TWO_64 {
              return None;
            }
            return Some([SLASH] + Decimal(i) + found.value);
          case Object(members) =>
            return Some([SLASH] + Encode(members[i].name) + found.value);
          case _ => assert false;
        }
      }
      i := i + 1;
    }
    r := None;
  }

  /** compare_pointers, on the token that starts at position start. */
  method ComparePointers(name: cstring, pointer: cstring, start: nat, cs: bool) returns (same: bool)
    requires start <= |pointer|
    ensures same == MatchesToken(name, pointer[start..TokenEnd(pointer, start)], cs)
  {
    ghost var e := TokenEnd(pointer, start);
    TokenEndSound(pointer, start);
    var n, p := 0, start;
    while n < |name| && p < |pointer| && pointer[p] != SLASH
      invariant n <= |name| && start <= p <= e
      invariant MatchesToken(name, pointer[start..e], cs) == MatchesToken(name[n..], pointer[p..e], cs)
    {
      ghost var token := pointer[p..e];
      var next := if p + 1 < |pointer| then pointer[p + 1] as int else 0;
      assert p + 1 < e ==> token[1] == next as int;
      if pointer[p] == TILDE {
        if (next != ZERO || name[n] != TILDE) && (next != ONE || name[n] != SLASH) {
          return false;
        }
        assert token[2..] == pointer[p + 2..e];
        p := p + 1;
      } else if !SameChar(name[n], pointer[p], cs) {
        return false;
      } else {
        assert token[1..] == pointer[p + 1..e];
      }
      assert name[n..][1..] == name[n + 1..];
      n, p := n + 1, p + 1;
    }
    same := (p < |pointer| && pointer[p] != SLASH) == (n < |name|);
  }

  /** decode_array_index_from_pointer, on the token that starts at position start. */
  method DecodeArrayIndex(pointer: cstring, start: nat) returns (index: Option<int>)
    requires start <= |pointer|
    ensures index == DecodeIndex(pointer[start..TokenEnd(pointer, start)])
  {
    hide TokenEnd;
    ghost var e := TokenEnd(pointer, start);
    ghost var token := pointer[start..e];
    TokenEndSound(pointer, start);
    if start + 1 < |pointer| && pointer[start] == ZERO && pointer[start + 1] != SLASH {
      assert |token| > 1;
      return None;
    }
    assert !(|token| > 1 && token[0] == ZERO);
    var parsed: int, p := 0, start;
    assert token[..0] == [];
    while p < |pointer| && pointer[p] >= ZERO && pointer[start] <= NINE
      invariant start <= p <= e && parsed == IndexValue(token[..p - start])
      invariant forall k :: start <= k < p ==> pointer[k] >= ZERO
      invariant p > start ==> pointer[start] <= NINE
    {
      assert token[..p + 1 - start][..p - start] == token[..p - start];
      parsed := (10 * parsed + (pointer[p] - ZERO)) % TWO_64;
      p := p + 1;
    }
    if p < |pointer| && pointer[p] != SLASH {
      assert token[p - start] == pointer[p];
      assert token[0] <= NINE ==> token[p - start] < ZERO;
      return None;
    }
    assert token[..p - start] == token && forall k :: 0 <= k < |token| ==> token[k] == pointer[start + k];
    index := Some(parsed);
  }

  /** get_item_from_pointer, with the current element and its path. */
  method GetItemFromPointer(root: Json, pointer: cstring, cs: bool) returns (r: Option<Path>)
    ensures r == Resolve(root, pointer, cs)
  {
    hide StepInto, TokenEnd, Under;
    UnderNothing([]);
    var current, path, p := root, [], 0;
    UnderUnder([], 0, Resolve(root, pointer, cs));
    while p < |pointer| && pointer[p] == SLASH
      invariant p <= |pointer|
      invariant Resolve(root, pointer, cs) ==
                Under(path, Walk(current, TokensFrom(pointer, p), cs))
      decreases |pointer| - p
    {
      ghost var token := pointer[p + 1..TokenEnd(pointer, p + 1)];
      assert TokensFrom(pointer, p) == [token] + TokensFrom(pointer, TokenEnd(pointer, p + 1));
      var child := Descend(current, pointer, p + 1, cs);
      UnderNothing(path);
      if child.None? {
        return None;
      }
      UnderUnder(path, child.value,
                 Walk(Children(current)[child.value], TokensFrom(pointer, TokenEnd(pointer, p + 1)), cs));
      current, path := Children(current)[child.value], path + [child.value];
      p := SkipToken(pointer, p + 1);
    }
    UnderNothing(path);
    r := Some(path);
  }

  /** Its step from an array or an object to the child the token at position start names. */
  method Descend(current: Json, pointer: cstring, start: nat, cs: bool) returns (child: Option<nat>)
    requires start <= |pointer|
    ensures child == StepInto(current, pointer[start..TokenEnd(pointer, start)], cs)
  {
    match current {
      case Array(items) =>
        var index := DecodeArrayIndex(pointer, start);
        if index.Some? && 0 <= index.value < |items| {
          child := Some(index.value);
        } else {
          child := None;
        }
      case Object(members) =>
        child := FindMember(members, pointer, start, cs);
      case _ =>
        child := None;
    }
  }

  /** Its loop over the members of an object. */
  method FindMember(members: seq<Member>, pointer: cstring, start: nat, cs: bool) returns (r: Option<nat>)
    requires start <= |pointer|
    ensures r == FirstMatch(members, pointer[start..TokenEnd(pointer, start)], cs)
  {
    ghost var token := pointer[start..TokenEnd(pointer, start)];
    var i := 0;
    while i < |members|
      invariant 0 <= i <= |members|
      invariant FirstMatch(members, token, cs) ==
                match FirstMatch(members[i..], token, cs) { case None => None case Some(k) => Some(i + k) }
    {
      assert members[i..][1..] == members[i + 1..];
      var same := ComparePointers(members[i].name, pointer, start, cs);
      if same {
        return Some(i);
      }
      i := i + 1;
    }
    r := None;
  }

  /** Its loop to the next token. */
  method SkipToken(pointer: cstring, start: nat) returns (p: nat)
    requires start <= |pointer|
    ensures p == TokenEnd(pointer, start)
  {
    p := start;
    while p < |pointer| && pointer[p] != SLASH
      invariant p <= |pointer| && TokenEnd(pointer, p) == TokenEnd(pointer, start)
    {
      p := p + 1;
    }
  }
}
