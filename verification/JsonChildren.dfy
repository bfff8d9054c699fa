/** The child list of an array or object: a chain of items linked both ways, edited in place. */
module JsonChildren {

  class Item {
    var next: Item?
    var prev: Item?
    var child: Item?

    constructor ()
      ensures next == null && prev == null && child == null
    {
      next, prev, child := null, null, null;
    }
  }

  /** The item at position `i` of a list, null outside it. */
  ghost function Nth(nodes: seq<Item>, i: int): Item? {
    if 0 <= i < |nodes| then nodes[i] else null
  }

  ghost predicate Distinct(nodes: seq<Item>) {
    forall i, k :: 0 <= i < k < |nodes| ==> nodes[i] != nodes[k]
  }

  /** What a store can touch, as a set. */
  ghost function One(x: Item?): set<Item> {
    if x == null then {} else {x}
  }

  /** The item at `k` stands nowhere else. */
  lemma Elsewhere(nodes: seq<Item>, k: int)
    requires Distinct(nodes)
    ensures 0 <= k < |nodes| ==> forall i :: 0 <= i < |nodes| && i != k ==> nodes[i] != nodes[k]
  {
  }

  /**
   * The children of `parent` are `nodes`, in that order: the first has no predecessor, the last
   * no successor, and `next` and `prev` are inverse to each other in between.
   */
  ghost predicate Chain(parent: Item, nodes: seq<Item>)
    reads parent, nodes
  {
    && Distinct(nodes)
    && parent.child == Nth(nodes, 0)
    && (forall i {:trigger nodes[i].next} :: 0 <= i < |nodes| ==> nodes[i].next == Nth(nodes, i + 1))
    && (forall i {:trigger nodes[i].prev} :: 0 <= i < |nodes| ==> nodes[i].prev == Nth(nodes, i - 1))
  }

  lemma Links(parent: Item, nodes: seq<Item>, k: nat)
    requires Chain(parent, nodes) && k < |nodes|
    ensures nodes[k].next == Nth(nodes, k + 1) && nodes[k].prev == Nth(nodes, k - 1)
    ensures parent.child == Nth(nodes, 0)
  {
  }

  // ---- edits of the sequence of children ----

  function InsertedAt<T>(s: seq<T>, k: nat, x: T): (r: seq<T>)
  {
    if k < |s| then s[..k] + [x] + s[k..] else s + [x]
  }

  function RemovedAt<T>(s: seq<T>, k: nat): (r: seq<T>)
    requires k < |s|
  {
    s[..k] + s[k + 1..]
  }

  /** Removing what was inserted, and inserting what was removed, gives the children back. */
  lemma EditsInverse<T>(s: seq<T>, k: nat, x: T)
    ensures k <= |s| ==> RemovedAt(InsertedAt(s, k, x), k) == s
    ensures k < |s| ==> InsertedAt(RemovedAt(s, k), k, s[k]) == s
    ensures k < |s| ==> s[k := x] == InsertedAt(RemovedAt(s, k), k, x)
  {
    if k <= |s| {
      assert InsertedAt(s, k, x)[..k] == s[..k] && InsertedAt(s, k, x)[k + 1..] == s[k..];
      assert s[..k] + s[k..] == s;
    }
    if k < |s| {
      assert RemovedAt(s, k)[..k] == s[..k] && RemovedAt(s, k)[k..] == s[k + 1..];
    }
  }

  lemma InsertedNth(nodes: seq<Item>, k: nat, item: Item)
    requires k <= |nodes|
    ensures
      var r := InsertedAt(nodes, k, item);
      |r| == |nodes| + 1 && r[k] == item
      && (forall i :: 0 <= i < k ==> r[i] == nodes[i])
      && (forall i :: k < i < |r| ==> r[i] == nodes[i - 1])
      && (Distinct(nodes) && item !in nodes ==> Distinct(r))
  {
  }

  lemma InsertedPast(nodes: seq<Item>, k: nat, item: Item)
    requires k >= |nodes|
    ensures InsertedAt(nodes, k, item) == InsertedAt<Item>(nodes, |nodes|, item)
  {
  }

  lemma RemovedNth(nodes: seq<Item>, k: nat)
    requires k < |nodes|
    ensures
      var r := RemovedAt(nodes, k);
      |r| == |nodes| - 1
      && (forall i :: 0 <= i < k ==> r[i] == nodes[i])
      && (forall i :: k <= i < |r| ==> r[i] == nodes[i + 1])
      && (Distinct(nodes) ==> Distinct(r))
  {
  }

  lemma ReplacedDistinct(nodes: seq<Item>, k: nat, item: Item)
    requires k < |nodes| && Distinct(nodes) && item !in nodes
    ensures Distinct(nodes[k := item])
  {
  }

  // ---- the routines ----

  /** get_array_item. */
  method GetArrayItem(parent: Item?, index: nat, ghost nodes: seq<Item>) returns (r: Item?)
    requires parent != null ==> Chain(parent, nodes)
    ensures r == if parent != null && index < |nodes| then nodes[index] else null
  {
    if parent == null {
      return null;
    }
    r := parent.child;
    var left := index;
    ghost var i := 0;
    while r != null && left > 0
      invariant 0 <= i <= |nodes| && i + left == index
      invariant r == Nth(nodes, i)
    {
      Links(parent, nodes, i);
      left := left - 1;
      r := r.next;
      i := i + 1;
    }
  }

  /** add_item_to_array: the item, which is in no list, becomes the last child. */
  method AddItemToArray(parent: Item?, item: Item?, ghost nodes: seq<Item>) returns (ok: bool)
    requires parent != null ==> Chain(parent, nodes)
    requires item != null ==> item !in nodes && item.next == null && item.prev == null
    requires parent != null ==> item != parent && parent !in nodes
    modifies One(parent)`child, One(item)`next, One(item)`prev, nodes`next, nodes`prev
    ensures ok <==> parent != null && item != null
    ensures !ok ==> parent != null ==> Chain(parent, nodes)
    ensures ok ==> Chain(parent, InsertedAt<Item>(nodes, |nodes|, item))
  {
    hide Distinct, InsertedAt;
    if item == null || parent == null {
      return false;
    }
    var child := parent.child;
    if child == null {
      parent.child := item;
    } else {
      ghost var i := 0;
      while child.next != null
        invariant 0 <= i < |nodes| && child == nodes[i]
        invariant Chain(parent, nodes)
        modifies {}
        decreases |nodes| - i
      {
        Links(parent, nodes, i);
        child := child.next;
        i := i + 1;
      }
      Links(parent, nodes, i);
      child.next := item;
      item.prev := child;
      Elsewhere(nodes, i);
    }
    InsertedNth(nodes, |nodes|, item);
    ghost var r := InsertedAt<Item>(nodes, |nodes|, item);
    assert forall i {:trigger r[i].next} :: 0 <= i < |r| ==> r[i].next == Nth(r, i + 1);
    assert forall i {:trigger r[i].prev} :: 0 <= i < |r| ==> r[i].prev == Nth(r, i - 1);
    ok := true;
  }

  /** cJSON_InsertItemInArray: before the child at `which`, or at the end when there is none. A null item is only
      looked at when there is a child there. */
  method InsertItemInArray(parent: Item?, which: int, item: Item?, ghost nodes: seq<Item>)
    requires parent != null ==> Chain(parent, nodes) && parent !in nodes && item != parent
    requires item != null ==> item !in nodes && item.next == null && item.prev == null
    requires parent != null && 0 <= which < |nodes| ==> item != null
    modifies One(parent)`child, One(item)`next, One(item)`prev, nodes`next, nodes`prev
    ensures parent != null ==>
      Chain(parent, if which < 0 || item == null then nodes else InsertedAt<Item>(nodes, which, item))
  {
    hide Distinct, InsertedAt;
    if which < 0 {
      return;
    }
    var after := GetArrayItem(parent, which, nodes);
    if after == null {
      if parent != null && item != null {
        InsertedPast(nodes, which, item);
      }
      var _ := AddItemToArray(parent, item, nodes);
      return;
    }
    Links(parent, nodes, which);
    Elsewhere(nodes, which);
    Elsewhere(nodes, which - 1);
    item.next := after;
    item.prev := after.prev;
    after.prev := item;
    if after == parent.child {
      parent.child := item;
    } else {
      item.prev.next := item;
    }
    ghost var r := InsertedAt<Item>(nodes, which, item);
    InsertedNth(nodes, which, item);
    assert forall i {:trigger r[i].next} :: 0 <= i < |r| ==> r[i].next == Nth(r, i + 1);
    assert forall i {:trigger r[i].prev} :: 0 <= i < |r| ==> r[i].prev == Nth(r, i - 1);
  }

  /** cJSON_DetachItemViaPointer: the child at `k` leaves the list with its links cleared. */
  method DetachItemViaPointer(parent: Item?, item: Item?, ghost nodes: seq<Item>, ghost k: nat) returns (r: Item?)
    requires parent != null ==> Chain(parent, nodes) && parent !in nodes
    requires item != null && parent != null ==> k < |nodes| && nodes[k] == item
    modifies One(parent)`child, nodes`next, nodes`prev
    ensures r == if parent == null then null else item
    ensures parent != null ==> Chain(parent, if item == null then nodes else RemovedAt(nodes, k))
    ensures r != null ==> r.next == null && r.prev == null
  {
    hide Distinct, RemovedAt;
    if parent == null || item == null {
      return null;
    }
    Links(parent, nodes, k);
    Elsewhere(nodes, k - 1);
    Elsewhere(nodes, k);
    Elsewhere(nodes, k + 1);
    if item.prev != null {
      item.prev.next := item.next;
    }
    if item.next != null {
      item.next.prev := item.prev;
    }
    if item == parent.child {
      parent.child := item.next;
    }
    item.prev := null;
    item.next := null;
    ghost var rest := RemovedAt(nodes, k);
    RemovedNth(nodes, k);
    assert forall i {:trigger rest[i].next} :: 0 <= i < |rest| ==> rest[i].next == Nth(rest, i + 1);
    assert forall i {:trigger rest[i].prev} :: 0 <= i < |rest| ==> rest[i].prev == Nth(rest, i - 1);
    r := item;
  }

  /** cJSON_DetachItemFromArray. */
  method DetachItemFromArray(parent: Item?, which: int, ghost nodes: seq<Item>) returns (r: Item?)
    requires parent != null ==> Chain(parent, nodes) && parent !in nodes
    modifies One(parent)`child, nodes`next, nodes`prev
    ensures r == if parent != null && 0 <= which < |nodes| then nodes[which] else null
    ensures parent != null ==> Chain(parent, if 0 <= which < |nodes| then RemovedAt(nodes, which) else nodes)
    ensures r != null ==> r.next == null && r.prev == null
  {
    if which < 0 {
      return null;
    }
    var item := GetArrayItem(parent, which, nodes);
    r := DetachItemViaPointer(parent, item, nodes, which);
  }

  /** cJSON_ReplaceItemViaPointer up to the deletion of the item replaced, which has left the list. */
  method ReplaceItemViaPointer(parent: Item?, item: Item?, replacement: Item?, ghost nodes: seq<Item>, ghost k: nat)
    returns (ok: bool)
    requires parent != null ==> Chain(parent, nodes) && parent !in nodes && replacement != parent
    requires item != null && parent != null ==> k < |nodes| && nodes[k] == item
    requires replacement != null && replacement != item ==> replacement !in nodes
    modifies One(parent)`child, One(replacement)`next, One(replacement)`prev, nodes`next, nodes`prev
    ensures ok <==> parent != null && item != null && replacement != null
    ensures parent != null ==> Chain(parent, if ok then nodes[k := replacement] else nodes)
    ensures ok && replacement != item ==> item.next == null && item.prev == null
  {
    hide Distinct;
    if parent == null || replacement == null || item == null {
      return false;
    }
    if replacement == item {
      assert nodes[k := replacement] == nodes;
      return true;
    }
    Links(parent, nodes, k);
    Elsewhere(nodes, k - 1);
    Elsewhere(nodes, k);
    Elsewhere(nodes, k + 1);
    replacement.next := item.next;
    replacement.prev := item.prev;
    if replacement.next != null {
      replacement.next.prev := replacement;
    }
    if replacement.prev != null {
      replacement.prev.next := replacement;
    }
    if parent.child == item {
      parent.child := replacement;
    }
    item.next := null;
    item.prev := null;
    ghost var r := nodes[k := replacement];
    ReplacedDistinct(nodes, k, replacement);
    assert forall i {:trigger r[i].next} :: 0 <= i < |r| ==> r[i].next == Nth(r, i + 1);
    assert forall i {:trigger r[i].prev} :: 0 <= i < |r| ==> r[i].prev == Nth(r, i - 1);
    ok := true;
  }

  /** Detaching the child at `which` and inserting it there again restores the list. */
  method DetachAndInsert(parent: Item, which: nat, ghost nodes: seq<Item>)
    requires Chain(parent, nodes) && parent !in nodes && which < |nodes|
    modifies One(parent)`child, nodes`next, nodes`prev
    ensures Chain(parent, nodes)
  {
    var item := DetachItemFromArray(parent, which, nodes);
    InsertItemInArray(parent, which, item, RemovedAt(nodes, which));
    EditsInverse(nodes, which, item);
  }
}
