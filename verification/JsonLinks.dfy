/** JSON documents together with what appending to their objects relies on. */
module JsonLinks {
  import opened CTypes
  import opened Names
  import opened Sorting
  import opened Json
  import opened JsonPointer
  import opened JsonPatch
  import opened JsonPatchLaws
  import opened BackLinks

  type Atom = j: Json | !j.Array? && !j.Object? witness Null

  /** A document whose objects carry the link that appending follows; only objects are ever sorted, so
      the link of an array always leads to its last element. */
  datatype Doc = Scalar(j: Atom) | List(items: seq<Doc>) | Record(entries: seq<Entry>, link: Link)

  datatype Entry = Entry(name: cstring, value: Doc)

  function EntryName(e: Entry): cstring { e.name }

  // ---- The document behind the links ----

  function Erase(d: Doc): Json {
    match d
    case Scalar(j) => j
    case List(items) => Array(EraseItems(items))
    case Record(entries, _) => Object(EraseEntries(entries))
  }

  function EraseItems(items: seq<Doc>): (r: seq<Json>)
    ensures |r| == |items|
  {
    seq(|items|, i requires 0 <= i < |items| => Erase(items[i]))
  }

  function EraseEntries(entries: seq<Entry>): (r: seq<Member>)
    ensures |r| == |entries|
  {
    seq(|entries|, i requires 0 <= i < |entries| => Member(entries[i].name, Erase(entries[i].value)))
  }

  /** A document as the parser builds it and as duplicating builds it: every link leads to the tail. */
  function Lift(j: Json): Doc {
    match j
    case Array(items) => List(LiftItems(items))
    case Object(members) => Record(LiftMembers(members), Tail)
    case _ => Scalar(j)
  }

  function LiftItems(items: seq<Json>): (r: seq<Doc>)
    ensures |r| == |items|
  {
    seq(|items|, i requires 0 <= i < |items| => Lift(items[i]))
  }

  function LiftMembers(members: seq<Member>): (r: seq<Entry>)
    ensures |r| == |members|
  {
    seq(|members|, i requires 0 <= i < |members| => Entry(members[i].name, Lift(members[i].value)))
  }

  /** Every object's link leads to its last member. */
  predicate Whole(d: Doc) {
    && (d.List? ==> forall i :: 0 <= i < |d.items| ==> Whole(d.items[i]))
    && (d.Record? ==> d.link == Tail && forall i :: 0 <= i < |d.entries| ==> Whole(d.entries[i].value))
  }

  lemma {:induction false} LiftWhole(j: Json)
    ensures Whole(Lift(j)) && Erase(Lift(j)) == j
    decreases j
  {
    if j.Array? {
      forall i | 0 <= i < |j.items|
        ensures Whole(Lift(j.items[i])) && Erase(Lift(j.items[i])) == j.items[i]
      {
        LiftWhole(j.items[i]);
      }
      assert EraseItems(LiftItems(j.items)) == j.items;
    } else if j.Object? {
      forall i | 0 <= i < |j.members|
        ensures Whole(Lift(j.members[i].value)) && Erase(Lift(j.members[i].value)) == j.members[i].value
      {
        LiftWhole(j.members[i].value);
      }
      assert EraseEntries(LiftMembers(j.members)) == j.members;
    }
  }

  /** Whole documents are what their JSON values lift to. */
  lemma {:induction false} WholeIsLift(d: Doc)
    requires Whole(d)
    ensures d == Lift(Erase(d))
    decreases d
  {
    match d {
      case Scalar(_) =>
      case List(items) =>
        forall i | 0 <= i < |items|
          ensures items[i] == Lift(Erase(items[i]))
        {
          WholeIsLift(items[i]);
        }
        assert LiftItems(EraseItems(items)) == items;
      case Record(entries, _) =>
        forall i | 0 <= i < |entries|
          ensures entries[i].value == Lift(Erase(entries[i].value))
        {
          WholeIsLift(entries[i].value);
        }
        assert LiftMembers(EraseEntries(entries)) == entries;
    }
  }

  // ---- Places in a document ----

  function Inner(d: Doc): seq<Doc> {
    match d
    case List(items) => items
    case Record(entries, _) => seq(|entries|, i requires 0 <= i < |entries| => entries[i].value)
    case _ => []
  }

  lemma InnerErased(d: Doc)
    ensures |Children(Erase(d))| == |Inner(d)|
    ensures forall i :: 0 <= i < |Inner(d)| ==> Children(Erase(d))[i] == Erase(Inner(d)[i])
  {}

  function DocAt(d: Doc, path: Path): Doc
    requires ValidPath(Erase(d), path)
    decreases |path|
  {
    InnerErased(d);
    if path == [] then d else DocAt(Inner(d)[path[0]], path[1..])
  }

  function ReplaceInner(d: Doc, i: nat, x: Doc): Doc
    requires i < |Inner(d)|
  {
    if d.List? then List(d.items[i := x]) else Record(d.entries[i := d.entries[i].(value := x)], d.link)
  }

  function DocPut(d: Doc, path: Path, x: Doc): Doc
    requires ValidPath(Erase(d), path)
    decreases |path|
  {
    InnerErased(d);
    if path == [] then x else ReplaceInner(d, path[0], DocPut(Inner(d)[path[0]], path[1..], x))
  }

  lemma ReplaceErased(d: Doc, i: nat, x: Doc)
    requires i < |Inner(d)|
    ensures |Children(Erase(d))| == |Inner(d)| && Erase(ReplaceInner(d, i, x)) == ReplaceChild(Erase(d), i, Erase(x))
    ensures Inner(ReplaceInner(d, i, x)) == Inner(d)[i := x]
  {
    if d.List? {
      assert EraseItems(d.items[i := x]) == EraseItems(d.items)[i := Erase(x)];
    } else {
      var m := EraseEntries(d.entries)[i];
      assert EraseEntries(d.entries[i := d.entries[i].(value := x)]) ==
             EraseEntries(d.entries)[i := m.(value := Erase(x))];
    }
  }

  lemma {:induction false} DocAtErased(d: Doc, path: Path)
    requires ValidPath(Erase(d), path)
    ensures Erase(DocAt(d, path)) == At(Erase(d), path)
    decreases |path|
  {
    hide Erase;
    InnerErased(d);
    if path != [] { DocAtErased(Inner(d)[path[0]], path[1..]); }
  }

  lemma {:induction false} DocPutErased(d: Doc, path: Path, x: Doc)
    requires ValidPath(Erase(d), path)
    ensures Erase(DocPut(d, path, x)) == Put(Erase(d), path, Erase(x))
    decreases |path|
  {
    hide Erase;
    InnerErased(d);
    if path != [] {
      DocPutErased(Inner(d)[path[0]], path[1..], x);
      ReplaceErased(d, path[0], DocPut(Inner(d)[path[0]], path[1..], x));
    }
  }

  lemma {:induction false} DocPutAt(d: Doc, path: Path, x: Doc)
    requires ValidPath(Erase(d), path)
    ensures ValidPath(Erase(DocPut(d, path, x)), path) && DocAt(DocPut(d, path, x), path) == x
    decreases |path|
  {
    hide Erase;
    DocPutErased(d, path, x);
    PutAt(Erase(d), path, Erase(x));
    InnerErased(d);
    if path != [] {
      var y := DocPut(Inner(d)[path[0]], path[1..], x);
      DocPutAt(Inner(d)[path[0]], path[1..], x);
      ReplaceErased(d, path[0], y);
      InnerErased(ReplaceInner(d, path[0], y));
    }
  }

  lemma {:induction false} DocPutPut(d: Doc, path: Path, x: Doc, y: Doc)
    requires ValidPath(Erase(d), path)
    ensures ValidPath(Erase(DocPut(d, path, x)), path) && DocPut(DocPut(d, path, x), path, y) == DocPut(d, path, y)
    decreases |path|
  {
    hide Erase;
    DocPutAt(d, path, x);
    InnerErased(d);
    if path != [] {
      var i, child := path[0], Inner(d)[path[0]];
      var x', y' := DocPut(child, path[1..], x), DocPut(child, path[1..], y);
      DocPutPut(child, path[1..], x, y);
      ReplaceErased(d, i, x');
      InnerErased(ReplaceInner(d, i, x'));
      ReplaceInnerTwice(d, i, x', y');
    }
  }

  lemma ReplaceInnerTwice(d: Doc, i: nat, x: Doc, y: Doc)
    requires i < |Inner(d)|
    ensures i < |Inner(ReplaceInner(d, i, x))| && ReplaceInner(ReplaceInner(d, i, x), i, y) == ReplaceInner(d, i, y)
  {
    if d.List? {
      assert d.items[i := x][i := y] == d.items[i := y];
    } else {
      var e := d.entries[i];
      assert d.entries[i := e.(value := x)][i := e.(value := y)] == d.entries[i := e.(value := y)];
    }
  }

  lemma {:induction false} DocPutSame(d: Doc, path: Path)
    requires ValidPath(Erase(d), path)
    ensures DocPut(d, path, DocAt(d, path)) == d
    decreases |path|
  {
    InnerErased(d);
    if path != [] {
      DocPutSame(Inner(d)[path[0]], path[1..]);
      if d.List? {
        assert d.items[path[0] := d.items[path[0]]] == d.items;
      } else {
        var e := d.entries[path[0]];
        assert d.entries[path[0] := e.(value := e.value)] == d.entries;
      }
    }
  }

  lemma InnerLift(j: Json)
    ensures |Inner(Lift(j))| == |Children(j)| && forall i :: 0 <= i < |Children(j)| ==>
              Inner(Lift(j))[i] == Lift(Children(j)[i])
  {}

  lemma {:induction false} DocAtLift(j: Json, path: Path)
    requires ValidPath(j, path)
    ensures ValidPath(Erase(Lift(j)), path) && DocAt(Lift(j), path) == Lift(At(j, path))
    decreases |path|
  {
    hide Lift, Erase;
    LiftWhole(j);
    InnerLift(j);
    if path != [] { DocAtLift(Children(j)[path[0]], path[1..]); }
  }

  lemma ReplaceLift(j: Json, i: nat, x: Json)
    requires i < |Children(j)|
    ensures |Inner(Lift(j))| == |Children(j)| && ReplaceInner(Lift(j), i, Lift(x)) == Lift(ReplaceChild(j, i, x))
  {
    if j.Array? {
      assert LiftItems(j.items[i := x]) == LiftItems(j.items)[i := Lift(x)];
    } else {
      var e := LiftMembers(j.members)[i];
      assert LiftMembers(j.members[i := j.members[i].(value := x)]) ==
             LiftMembers(j.members)[i := e.(value := Lift(x))];
    }
  }

  lemma {:induction false} DocPutLift(j: Json, path: Path, x: Json)
    requires ValidPath(j, path)
    ensures ValidPath(Erase(Lift(j)), path) && DocPut(Lift(j), path, Lift(x)) == Lift(Put(j, path, x))
    decreases |path|
  {
    hide Lift, Erase;
    LiftWhole(j);
    InnerLift(j);
    if path != [] {
      DocPutLift(Children(j)[path[0]], path[1..], x);
      ReplaceLift(j, path[0], Put(Children(j)[path[0]], path[1..], x));
    }
  }
}
