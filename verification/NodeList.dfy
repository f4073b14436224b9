/**
  The child lists of cJSON nodes: doubly linked through `next` and `prev`, where the `prev` of the
  first child is the last one.
  
  Each method relinks nodes as the code does and carries the sequence of the children as a ghost
  parameter; what it does is stated as an operation on that sequence.
*/
module NodeList {
  import opened CTypes
  import opened Names
  import opened Sorting
  import opened BackLinks

  /** The links and the name of a cJSON node; its own value plays no part in the lists. */
  class Node {
    var next: Node?
    var prev: Node?
    var child: Node?
    const name: cstring

    constructor (name: cstring)
      ensures next == null && prev == null && child == null && this.name == name
    {
      next, prev, child := null, null, null;
      this.name := name;
    }
  }

  function NodeName(n: Node): cstring { n.name }

  predicate Apart(nodes: seq<Node>) {
    forall i, j :: 0 <= i < j < |nodes| ==> nodes[i] != nodes[j]
  }

  /** Neighbours in the sequence are linked both ways. */
  ghost predicate Run(nodes: seq<Node>)
    reads nodes
  {
    && Apart(nodes)
    && (forall i :: 0 <= i < |nodes| - 1 ==> nodes[i].next == nodes[i + 1])
    && (forall i :: 0 < i < |nodes| ==> nodes[i].prev == nodes[i - 1])
  }

  /** A run whose last node ends the chain. */
  ghost predicate Linked(nodes: seq<Node>)
    reads nodes
  {
    Run(nodes) && (nodes != [] ==> nodes[|nodes| - 1].next == null)
  }

  /** A parent's chain of children, whatever the `prev` of its head. */
  ghost predicate Chained(parent: Node, nodes: seq<Node>)
    reads parent, nodes
  {
    Linked(nodes) && parent !in nodes && parent.child == Head(nodes)
  }

  /** The shape of a child list: the `prev` of its head is its tail. */
  ghost predicate Children(parent: Node, nodes: seq<Node>)
    reads parent, nodes
  {
    && Chained(parent, nodes)
    && (nodes != [] ==> nodes[0].prev == nodes[|nodes| - 1])
  }

  /** The node a link leads to. */
  predicate LeadsBack(prev: Node?, nodes: seq<Node>, link: Link)
    requires nodes != []
  {
    match link
    case Nothing => prev == null
    case Gone => prev != null && prev !in nodes
    case _ => prev == nodes[Target(link, |nodes|)]
  }

  /** Where the `prev` of the head leads. */
  ghost predicate BackLink(nodes: seq<Node>, link: Link)
    reads nodes
  {
    nodes != [] ==> LeadsBack(nodes[0].prev, nodes, link)
  }

  function Head(nodes: seq<Node>): Node? {
    if nodes == [] then null else nodes[0]
  }

  function Removed(nodes: seq<Node>, k: nat): seq<Node>
    requires k < |nodes|
  {
    nodes[..k] + nodes[k + 1..]
  }

  function Inserted(nodes: seq<Node>, k: nat, item: Node): seq<Node>
    requires k <= |nodes|
  {
    nodes[..k] + [item] + nodes[k..]
  }

  /** A child list determines the sequence of its nodes. */
  lemma ChildrenUnique(parent: Node, a: seq<Node>, b: seq<Node>)
    requires Children(parent, a) && Children(parent, b)
    ensures a == b
  {
    if a != [] {
      LinkedUnique(a, b);
    }
  }

  lemma {:induction false} LinkedUnique(a: seq<Node>, b: seq<Node>)
    requires Linked(a) && Linked(b) && a != [] && b != [] && a[0] == b[0]
    ensures a == b
    decreases |a|
  {
    assert |a| > 1 ==> a[0].next == a[1];
    assert |b| > 1 ==> b[0].next == b[1];
    if |a| > 1 {
      LinkedTail(a);
      LinkedTail(b);
      LinkedUnique(a[1..], b[1..]);
      assert a == [a[0]] + a[1..] && b == [b[0]] + b[1..];
    }
  }

  lemma LinkedTail(nodes: seq<Node>)
    requires Linked(nodes) && nodes != []
    ensures Linked(nodes[1..])
  {}

  lemma Neighbours(parent: Node, nodes: seq<Node>, k: nat)
    requires Children(parent, nodes) && k < |nodes|
    ensures nodes[k].next == if k + 1 < |nodes| then nodes[k + 1] else null
    ensures nodes[k].prev == if k > 0 then nodes[k - 1] else nodes[|nodes| - 1]
    ensures parent.child == nodes[k] <==> k == 0
  {}

  // ---- The list operations of cJSON.c ----

  /** suffix_object. */
  method Suffix(prev: Node, item: Node)
    modifies prev`next, item`prev
    ensures prev.next == item && item.prev == prev
  {
    prev.next := item;
    item.prev := prev;
  }

  /** add_item_to_array. It trusts the `prev` of the head to be the tail. An item outside any list
      has no successor; nothing here clears one. */
  method AddItem(parent: Node?, item: Node?, ghost nodes: seq<Node>, ghost link: Link) returns (ok: bool)
    requires parent != null ==> Chained(parent, nodes) && BackLink(nodes, link) && (nodes != [] ==> !link.Gone?)
    requires item != null ==> item !in nodes && item.next == null
    modifies if parent != null && item != null then {parent, item} + (set n | n in nodes) else {}
    ensures ok <==> parent != null && item != null && parent != item
    ensures ok ==> Chained(parent, Appended(nodes, link, item))
                   && BackLink(Appended(nodes, link, item), LinkAfterAppend(link, |nodes|))
    ensures !ok || (nodes != [] && link.Nothing?) ==>
              (parent != null ==> unchanged(parent) && unchanged(nodes)) && (item != null ==> unchanged(item))
  {
    if item == null || parent == null || parent == item {
      return false;
    }
    var child := parent.child;
    if child == null {
      parent.child := item;
      item.prev := item;
      item.next := null;
    } else if child.prev != null {
      Suffix(child.prev, item);
      parent.child.prev := item;
    }
    ok := true;
  }

  /** Where the `prev` of the head leads when a node has been taken out. */
  lemma RemovedLeads(prev: Node?, nodes: seq<Node>, k: nat, link: Link)
    requires Apart(nodes) && |nodes| > 1 && k < |nodes| && LeadsBack(prev, nodes, link)
    ensures LeadsBack(if k + 1 == |nodes| then nodes[k - 1] else prev, Removed(nodes, k),
                      LinkAfterRemove(link, k, |nodes|))
  {
    var r, n := Removed(nodes, k), |nodes|;
    assert forall i :: 0 <= i < n - 1 ==> r[i] == nodes[if i < k then i else i + 1];
  }

  /** cJSON_DetachItemViaPointer, for an item that is a child, whatever the `prev` of the head. */
  method DetachItem(parent: Node?, item: Node?, ghost nodes: seq<Node>, ghost k: nat, ghost link: Link)
    returns (r: Node?)
    requires parent != null && item != null ==>
               Chained(parent, nodes) && BackLink(nodes, link) && k < |nodes| && nodes[k] == item
    modifies if parent != null && item != null then {parent} + (set n | n in nodes) else {}
    ensures r == if parent == null then null else item
    ensures r != null ==>
              && Chained(parent, Removed(nodes, k))
              && BackLink(Removed(nodes, k), LinkAfterRemove(link, k, |nodes|))
              && item.next == null && item.prev == null
  {
    if parent == null || item == null {
      return null;
    }
    ChainedNeighbours(parent, nodes, k);
    ghost var was := nodes[0].prev;
    hide LeadsBack, LinkAfterRemove;
    if item != parent.child {
      item.prev.next := item.next;
    }
    if item.next != null {
      item.next.prev := item.prev;
    }
    if item == parent.child {
      parent.child := item.next;
    } else if item.next == null {
      parent.child.prev := item.prev;
    }
    item.prev := null;
    item.next := null;
    RemovedRun(nodes, k);
    if |nodes| > 1 { RemovedLeads(was, nodes, k, link); }
    r := item;
  }

  lemma ChainedNeighbours(parent: Node, nodes: seq<Node>, k: nat)
    requires Chained(parent, nodes) && k < |nodes|
    ensures nodes[k].next == if k + 1 < |nodes| then nodes[k + 1] else null
    ensures k > 0 ==> nodes[k].prev == nodes[k - 1]
    ensures parent.child == nodes[k] <==> k == 0
  {}

  lemma RemovedRun(nodes: seq<Node>, k: nat)
    requires k < |nodes| && Apart(nodes)
    requires forall i :: 0 <= i < |nodes| - 1 && i != k - 1 && i != k ==> nodes[i].next == nodes[i + 1]
    requires forall i :: 0 < i < |nodes| && i != k && i != k + 1 ==> nodes[i].prev == nodes[i - 1]
    requires 0 < k < |nodes| - 1 ==> nodes[k - 1].next == nodes[k + 1] && nodes[k + 1].prev == nodes[k - 1]
    ensures Run(Removed(nodes, k))
  {
    var r := Removed(nodes, k);
    assert forall i :: 0 <= i < k ==> r[i] == nodes[i];
    assert forall i :: k <= i < |r| ==> r[i] == nodes[i + 1];
  }

  /** get_array_item. */
  method GetItem(parent: Node, index: nat, ghost nodes: seq<Node>) returns (item: Node?)
    requires Children(parent, nodes)
    ensures item == if index < |nodes| then nodes[index] else null
  {
    item := parent.child;
    var i := index;
    while item != null && i > 0
      invariant 0 <= i <= index
      invariant item == if index - i < |nodes| then nodes[index - i] else null
    {
      i := i - 1;
      item := item.next;
    }
  }

  /** The links an insertion in front of a child sets. */
  method LinkBefore(parent: Node, after: Node, item: Node, ghost nodes: seq<Node>, ghost k: nat)
    requires Children(parent, nodes) && k < |nodes| && nodes[k] == after
    requires item !in nodes && item != parent
    modifies parent`child, item, set n | n in nodes
    ensures Children(parent, Inserted(nodes, k, item))
  {
    Neighbours(parent, nodes, k);
    ghost var last := nodes[|nodes| - 1];
    item.next := after;
    item.prev := after.prev;
    after.prev := item;
    if after == parent.child {
      parent.child := item;
    } else {
      item.prev.next := item;
    }
    InsertedRun(nodes, k, item);
    assert Inserted(nodes, k, item)[|nodes|] == last;
  }

  lemma InsertedRun(nodes: seq<Node>, k: nat, item: Node)
    requires k < |nodes| && item !in nodes && Apart(nodes)
    requires forall i :: 0 <= i < |nodes| - 1 && i != k - 1 ==> nodes[i].next == nodes[i + 1]
    requires forall i :: 0 < i < |nodes| && i != k ==> nodes[i].prev == nodes[i - 1]
    requires item.next == nodes[k] && nodes[k].prev == item
    requires k > 0 ==> item.prev == nodes[k - 1] && nodes[k - 1].next == item
    ensures Run(Inserted(nodes, k, item))
  {
    var r := Inserted(nodes, k, item);
    assert forall i :: 0 <= i < k ==> r[i] == nodes[i];
    assert r[k] == item;
    assert forall i :: k < i < |r| ==> r[i] == nodes[i - 1];
  }

  lemma InsertedLast(parent: Node, nodes: seq<Node>, item: Node)
    requires Chained(parent, Appended(nodes, Tail, item)) && BackLink(Appended(nodes, Tail, item), Tail)
    ensures Children(parent, Inserted(nodes, |nodes|, item))
  {
    assert Appended(nodes, Tail, item) == Inserted(nodes, |nodes|, item);
  }

  /** cJSON_InsertItemInArray: past the end it appends. */
  method InsertItem(parent: Node, which: int, item: Node?, ghost nodes: seq<Node>) returns (ok: bool)
    requires Children(parent, nodes)
    requires item != null ==> item !in nodes && item != parent && item.next == null
    modifies parent, set n | n in nodes, if item != null then {item} else {}
    ensures ok <==> which >= 0 && item != null
    ensures ok ==> Children(parent, Inserted(nodes, if which < |nodes| then which else |nodes|, item))
    ensures !ok ==> Children(parent, nodes)
  {
    if which < 0 || item == null {
      return false;
    }
    var after := GetItem(parent, which, nodes);
    if after == null {
      ok := AddItem(parent, item, nodes, Tail);
      InsertedLast(parent, nodes, item);
      return;
    }
    Neighbours(parent, nodes, which);
    if after != parent.child && after.prev == null {
      return false;
    }
    LinkBefore(parent, after, item, nodes, which);
    ok := true;
  }

  /** insert_item_in_array of cJSON_Utils.c: past the end it fails. */
  method InsertAt(parent: Node, which: nat, item: Node, ghost nodes: seq<Node>) returns (ok: bool)
    requires Children(parent, nodes)
    requires item !in nodes && item != parent && item.next == null
    modifies parent, item, set n | n in nodes
    ensures ok <==> which <= |nodes|
    ensures ok ==> Children(parent, Inserted(nodes, which, item))
    ensures !ok ==> Children(parent, nodes)
  {
    var child, left := parent.child, which;
    while child != null && left > 0
      invariant 0 <= left <= which && which - left <= |nodes|
      invariant child == if which - left < |nodes| then nodes[which - left] else null
    {
      child := child.next;
      left := left - 1;
    }
    if left > 0 {
      return false;
    }
    if child == null {
      var added := AddItem(parent, item, nodes, Tail);
      InsertedLast(parent, nodes, item);
    } else {
      LinkBefore(parent, child, item, nodes, which);
    }
    ok := true;
  }

  /** detach_item_from_array of cJSON_Utils.c. */
  method DetachAt(parent: Node, which: nat, ghost nodes: seq<Node>) returns (item: Node?)
    requires Children(parent, nodes)
    modifies parent, set n | n in nodes
    ensures item == if which < |nodes| then nodes[which] else null
    ensures Children(parent, if which < |nodes| then Removed(nodes, which) else nodes)
    ensures item != null ==> item.next == null && item.prev == null
  {
    item := GetItem(parent, which, nodes);
    if item != null {
      item := DetachItem(parent, item, nodes, which, Tail);
    }
  }

  /** cJSON_ReplaceItemViaPointer, for an item that is a child. */
  method ReplaceItem(parent: Node, item: Node, replacement: Node?, ghost nodes: seq<Node>, ghost k: nat)
    returns (ok: bool)
    requires Children(parent, nodes) && k < |nodes| && nodes[k] == item
    requires replacement != null && replacement != item ==> replacement !in nodes && replacement != parent
    modifies parent`child, set n | n in nodes, if replacement != null then {replacement} else {}
    ensures ok <==> replacement != null
    ensures ok ==> Children(parent, nodes[k := replacement])
    ensures ok && replacement != item ==> item.next == null && item.prev == null
    ensures !ok ==> Children(parent, nodes)
  {
    Neighbours(parent, nodes, k);
    if parent.child == null || replacement == null {
      return false;
    }
    if replacement == item {
      return true;
    }
    replacement.next := item.next;
    replacement.prev := item.prev;
    if replacement.next != null {
      replacement.next.prev := replacement;
    }
    if parent.child == item {
      if parent.child.prev == parent.child {
        replacement.prev := replacement;
      }
      parent.child := replacement;
    } else {
      if replacement.prev != null {
        replacement.prev.next := replacement;
      }
      if replacement.next == null {
        parent.child.prev := replacement;
      }
    }
    item.next := null;
    item.prev := null;
    ok := true;
    ReplacedRun(nodes, k, replacement);
  }

  lemma ReplacedRun(nodes: seq<Node>, k: nat, item: Node)
    requires k < |nodes| && Apart(nodes) && item !in nodes
    requires forall i :: 0 <= i < |nodes| - 1 && i != k - 1 && i != k ==> nodes[i].next == nodes[i + 1]
    requires forall i :: 0 < i < |nodes| && i != k && i != k + 1 ==> nodes[i].prev == nodes[i - 1]
    requires k > 0 ==> nodes[k - 1].next == item && item.prev == nodes[k - 1]
    requires k < |nodes| - 1 ==> item.next == nodes[k + 1] && nodes[k + 1].prev == item
    ensures Run(nodes[k := item])
  {}
}
