/** The child lists of cJSON (external/cJSON/cJSON.c): doubly linked, the last `next`
    null, and the first node's `prev` the last node, so that an item can be appended
    without walking the list. Each operation refines the same one on a sequence. */
module CJsonList {
  import opened Bytes

  class Node {
    var next: Node?
    var prev: Node?
    var child: Node?
    var isReference: bool    // its children belong to another item

    constructor ()
      ensures next == null && prev == null && child == null && !isReference
    {
      next, prev, child, isReference := null, null, null, false;
    }
  }

  // The children of `parent` are `nodes`, in that order.
  ghost predicate ListOf(parent: Node, nodes: seq<Node>)
    reads parent`child, nodes`next, nodes`prev
  {
    && (if nodes == [] then parent.child == null
        else parent.child == nodes[0] && nodes[0].prev == nodes[|nodes| - 1] && nodes[|nodes| - 1].next == null)
    && (forall i, j | 0 <= i < j < |nodes| :: nodes[i] != nodes[j])
    && (forall i {:trigger nodes[i].next} | 0 <= i < |nodes| - 1 :: nodes[i].next == nodes[i + 1])
    && (forall i {:trigger nodes[i].prev} | 0 < i < |nodes| :: nodes[i].prev == nodes[i - 1])
  }

  // ---- Sequences -----------------------------------------------------------

  function Inserted<T>(s: seq<T>, i: nat, x: T): seq<T> {
    if i < |s| then s[..i] + [x] + s[i..] else s + [x]
  }

  function Removed<T>(s: seq<T>, i: nat): seq<T> {
    if i < |s| then s[..i] + s[i + 1..] else s
  }

  // What an operation that succeeds may touch: the node a pointer leads to, the members
  // of a list. One that fails touches nothing.
  function At(pointer: Node?, ok: bool): set<Node> { if ok && pointer != null then {pointer} else {} }

  function Members(nodes: seq<Node>, ok: bool): set<Node> { if ok then set n | n in nodes else {} }

  // ---- What a list determines ----------------------------------------------

  // A node's place, and with it the whole sequence, can be read off the links.
  lemma {:induction false} SamePrefix(parent: Node, a: seq<Node>, b: seq<Node>, n: nat)
    requires ListOf(parent, a) && ListOf(parent, b) && n <= |a|
    ensures n <= |b| && a[..n] == b[..n]
  {
    if n > 0 {
      SamePrefix(parent, a, b, n - 1);
      if n > 1 {
        assert a[n - 2] == a[..n - 1][n - 2] == b[..n - 1][n - 2] == b[n - 2];
        assert a[n - 2].next == a[n - 1];
      }
      assert a[..n] == a[..n - 1] + [a[n - 1]];
      assert b[..n] == b[..n - 1] + [b[n - 1]];
    }
  }

  lemma ListIsUnique(parent: Node, a: seq<Node>, b: seq<Node>)
    requires ListOf(parent, a) && ListOf(parent, b)
    ensures a == b
  {
    SamePrefix(parent, a, b, |a|);
    SamePrefix(parent, b, a, |b|);
    assert a[..|a|] == a && b[..|b|] == b;
  }

  // ---- Reading -------------------------------------------------------------

  // get_array_item
  method GetItem(parent: Node?, index: nat, ghost nodes: seq<Node>) returns (item: Node?)
    requires parent != null ==> ListOf(parent, nodes)
    ensures item == if parent != null && index < |nodes| then nodes[index] else null
  {
    if parent == null {
      return null;
    }
    item := parent.child;
    var left := index;
    ghost var at := 0;
    while item != null && left > 0
      invariant at <= |nodes| && item == (if at < |nodes| then nodes[at] else null)
      invariant at + left == index
      decreases left
    {
      left := left - 1;
      item := item.next;
      at := at + 1;
    }
  }

  // A size_t cast to a 32-bit int.
  function AsInt(size: nat): int {
    var low := size % 0x1_0000_0000;
    if low <= INT_MAX then low else low - 0x1_0000_0000
  }

  // cJSON_GetArraySize. It is the number of children exactly if an int can hold it.
  method ArraySize(parent: Node?, ghost nodes: seq<Node>) returns (r: int)
    requires parent != null ==> ListOf(parent, nodes)
    ensures parent == null ==> r == 0
    ensures parent != null ==> r == AsInt(|nodes|)
    ensures parent != null ==> (r == |nodes| <==> |nodes| <= INT_MAX)
  {
    if parent == null {
      return 0;
    }
    var size := 0;
    var child := parent.child;
    while child != null
      invariant size <= |nodes| && child == (if size < |nodes| then nodes[size] else null)
      decreases |nodes| - size
    {
      size := size + 1;
      child := child.next;
    }
    return AsInt(size);
  }

  // ---- Relinking -----------------------------------------------------------

  // The links of `nodes` as they are with the one at `at` bypassed.
  ghost predicate Bypassed(parent: Node, nodes: seq<Node>, at: nat)
    requires at < |nodes|
    reads parent`child, nodes`next, nodes`prev
  {
    var n := |nodes|;
    && (forall i, j | 0 <= i < j < n :: nodes[i] != nodes[j])
    && (forall k {:trigger nodes[k].next} | 0 <= k < n - 1 && k != at && k + 1 != at :: nodes[k].next == nodes[k + 1])
    && (forall k {:trigger nodes[k].prev} | 0 < k < n && k != at && k != at + 1 :: nodes[k].prev == nodes[k - 1])
    && (0 < at < n - 1 ==> nodes[at - 1].next == nodes[at + 1] && nodes[at + 1].prev == nodes[at - 1])
    && (var first, last := if at == 0 then 1 else 0, if at == n - 1 then n - 2 else n - 1;
        if n == 1 then parent.child == null
        else parent.child == nodes[first] && nodes[first].prev == nodes[last] && nodes[last].next == null)
  }

  lemma BypassedIsRemoved(parent: Node, nodes: seq<Node>, at: nat)
    requires at < |nodes| && Bypassed(parent, nodes, at)
    ensures ListOf(parent, Removed(nodes, at))
  {
    var rest := Removed(nodes, at);
    assert forall i | 0 <= i < |rest| :: rest[i] == nodes[if i < at then i else i + 1];
  }

  // The links of `nodes` with `item` put before the one at `at`.
  ghost predicate PutBefore(parent: Node, nodes: seq<Node>, at: nat, item: Node)
    requires at < |nodes|
    reads parent`child, nodes`next, nodes`prev, item`next, item`prev
  {
    var n := |nodes|;
    && (forall i, j | 0 <= i < j < n :: nodes[i] != nodes[j])
    && (forall k {:trigger nodes[k].next} | 0 <= k < n - 1 && k + 1 != at :: nodes[k].next == nodes[k + 1])
    && (forall k {:trigger nodes[k].prev} | 0 < k < n && k != at :: nodes[k].prev == nodes[k - 1])
    && nodes[n - 1].next == null
    && item.next == nodes[at] && nodes[at].prev == item
    && (if at == 0 then parent.child == item && item.prev == nodes[n - 1]
        else parent.child == nodes[0] && nodes[0].prev == nodes[n - 1]
             && nodes[at - 1].next == item && item.prev == nodes[at - 1])
  }

  lemma PutBeforeIsInserted(parent: Node, nodes: seq<Node>, at: nat, item: Node)
    requires at < |nodes| && item !in nodes && PutBefore(parent, nodes, at, item)
    ensures ListOf(parent, Inserted(nodes, at, item))
  {
    var all := Inserted(nodes, at, item);
    assert forall i | 0 <= i < |all| :: all[i] == if i < at then nodes[i] else if i == at then item else nodes[i - 1];
  }

  // The links of `nodes` with `item` in the place of the one at `at`.
  ghost predicate PutInPlaceOf(parent: Node, nodes: seq<Node>, at: nat, item: Node)
    requires at < |nodes|
    reads parent`child, nodes`next, nodes`prev, item`next, item`prev
  {
    var n := |nodes|;
    && (forall i, j | 0 <= i < j < n :: nodes[i] != nodes[j])
    && (forall k {:trigger nodes[k].next} | 0 <= k < n - 1 && k != at && k + 1 != at :: nodes[k].next == nodes[k + 1])
    && (forall k {:trigger nodes[k].prev} | 0 < k < n && k != at && k - 1 != at :: nodes[k].prev == nodes[k - 1])
    && (if at == n - 1 then item.next == null
        else item.next == nodes[at + 1] && nodes[at + 1].prev == item && nodes[n - 1].next == null)
    && (if at == 0 then parent.child == item && item.prev == (if n == 1 then item else nodes[n - 1])
        else parent.child == nodes[0] && item.prev == nodes[at - 1] && nodes[at - 1].next == item
             && nodes[0].prev == if at == n - 1 then item else nodes[n - 1])
  }

  lemma PutInPlaceIsUpdate(parent: Node, nodes: seq<Node>, at: nat, item: Node)
    requires at < |nodes| && item !in nodes && PutInPlaceOf(parent, nodes, at, item)
    ensures ListOf(parent, nodes[at := item])
  {
    assert nodes[at := item][at] == item;
  }

  // ---- Adding --------------------------------------------------------------

  predicate CanAppend(parent: Node?, item: Node?) { parent != null && item != null && parent != item }

  // add_item_to_array. It writes the item's `next` only when the list was empty: if that
  // was so or `next` was null already the item is appended, and otherwise what is left
  // is no list at all.
  method Append(parent: Node?, item: Node?, ghost nodes: seq<Node>) returns (ok: bool)
    requires parent != null ==> ListOf(parent, nodes)
    requires item !in nodes
    modifies At(parent, CanAppend(parent, item))`child, At(item, CanAppend(parent, item))`next,
             At(item, CanAppend(parent, item))`prev, Members(nodes, CanAppend(parent, item))`next,
             Members(nodes, CanAppend(parent, item))`prev
    ensures ok == CanAppend(parent, item)
    ensures ok && (nodes == [] || old(item.next) == null) ==> ListOf(parent, nodes + [item])
    ensures ok && nodes != [] && old(item.next) != null ==> forall s: seq<Node> :: !ListOf(parent, s)
  {
    if item == null || parent == null || parent == item {
      return false;
    }
    var child := parent.child;
    if child == null {
      parent.child := item;
      item.prev := item;
      item.next := null;
    } else {
      var last := child.prev;
      if last != null {
        last.next := item;
        item.prev := last;
        parent.child.prev := item;
      }
    }
    return true;
  }

  predicate CanInsert(parent: Node?, which: int, newItem: Node?, size: nat) {
    parent != null && newItem != null && which >= 0 && (which < size || parent != newItem)
  }

  // cJSON_InsertItemInArray
  method Insert(parent: Node?, which: int, newItem: Node?, ghost nodes: seq<Node>) returns (ok: bool)
    requires parent != null ==> ListOf(parent, nodes)
    requires newItem !in nodes
    modifies At(parent, CanInsert(parent, which, newItem, |nodes|))`child,
             At(newItem, CanInsert(parent, which, newItem, |nodes|))`next,
             At(newItem, CanInsert(parent, which, newItem, |nodes|))`prev,
             Members(nodes, CanInsert(parent, which, newItem, |nodes|))`next,
             Members(nodes, CanInsert(parent, which, newItem, |nodes|))`prev
    ensures ok == CanInsert(parent, which, newItem, |nodes|)
    ensures ok && (which < |nodes| || nodes == [] || old(newItem.next) == null) ==>
              ListOf(parent, Inserted(nodes, which, newItem))
    ensures ok && |nodes| <= which && nodes != [] && old(newItem.next) != null ==>
              forall s: seq<Node> :: !ListOf(parent, s)
  {
    if which < 0 || newItem == null {
      return false;
    }
    var after := GetItem(parent, which, nodes);
    if after == null {
      ok := Append(parent, newItem, nodes);
      return;
    }
    if after != parent.child && after.prev == null {
      return false;
    }
    newItem.next := after;
    newItem.prev := after.prev;
    after.prev := newItem;
    if after == parent.child {
      parent.child := newItem;
    } else {
      newItem.prev.next := newItem;
    }
    PutBeforeIsInserted(parent, nodes, which, newItem);
    return true;
  }

  // ---- Taking out ----------------------------------------------------------

  // cJSON_DetachItemViaPointer. An item that is in no list has a null `prev`; `at` is
  // the place of one that is.
  method Detach(parent: Node?, item: Node?, ghost nodes: seq<Node>, ghost at: nat) returns (detached: Node?)
    requires parent != null ==> ListOf(parent, nodes)
    requires parent != null && item != null ==> (at < |nodes| && nodes[at] == item) || (item !in nodes && item.prev == null)
    modifies At(parent, item in nodes)`child,
             Members(nodes, parent != null && item in nodes)`next, Members(nodes, parent != null && item in nodes)`prev
    ensures detached == if parent != null && item in nodes then item else null
    ensures detached != null ==> ListOf(parent, Removed(nodes, at)) && item.prev == null && item.next == null
  {
    if parent == null || item == null || (item != parent.child && item.prev == null) {
      return null;
    }
    if item != parent.child {
      item.prev.next := item.next;
    }
    if item.next != null {
      item.next.prev := item.prev;
    }
    if item == parent.child {
      parent.child := item.next;
    } else if item.next == null {
      parent.child.prev := item.prev;
    }
    item.prev := null;
    item.next := null;
    BypassedIsRemoved(parent, nodes, at);
    return item;
  }

  // cJSON_DetachItemFromArray
  method DetachAt(parent: Node?, which: int, ghost nodes: seq<Node>) returns (detached: Node?)
    requires parent != null ==> ListOf(parent, nodes)
    modifies At(parent, 0 <= which < |nodes|)`child,
             Members(nodes, parent != null && 0 <= which < |nodes|)`next,
             Members(nodes, parent != null && 0 <= which < |nodes|)`prev
    ensures detached == if parent != null && 0 <= which < |nodes| then nodes[which] else null
    ensures detached != null ==>
              ListOf(parent, Removed(nodes, which)) && detached.prev == null && detached.next == null
  {
    if which < 0 {
      return null;
    }
    var item := GetItem(parent, which, nodes);
    detached := Detach(parent, item, nodes, which);
  }

  // ---- Deleting ------------------------------------------------------------

  // An item and what it owns.
  datatype Tree = Tree(root: Node, kids: seq<Tree>)

  // All items of a forest, each after what it owns.
  ghost function Nodes(forest: seq<Tree>): seq<Node>
    decreases forest
  {
    if forest == [] then [] else Nodes(forest[0].kids) + [forest[0].root] + Nodes(forest[1..])
  }

  // Following `next` from `item` leads through the roots of the forest, and from each
  // of them `child` leads into what it owns, all within `heap`.
  ghost predicate Chained(item: Node?, forest: seq<Tree>, heap: set<Node>)
    reads heap
    decreases forest
  {
    if forest == [] then item == null
    else
      && item == forest[0].root && item in heap
      && (if item.isReference then forest[0].kids == [] else Chained(item.child, forest[0].kids, heap))
      && Chained(item.next, forest[1..], heap)
  }

  lemma {:induction false} ChainedWithin(item: Node?, forest: seq<Tree>, heap: set<Node>, wider: set<Node>)
    requires Chained(item, forest, heap) && heap <= wider
    ensures Chained(item, forest, wider) && forall n <- Nodes(forest) :: n in heap
    decreases forest
  {
    if forest != [] {
      if !item.isReference { ChainedWithin(item.child, forest[0].kids, heap, wider); }
      ChainedWithin(item.next, forest[1..], heap, wider);
    }
  }

  // ---- What is freed once --------------------------------------------------

  ghost predicate Once(nodes: seq<Node>) { forall i, j | 0 <= i < j < |nodes| :: nodes[i] != nodes[j] }

  predicate LeadsTo(n: Node, x: Node)
    reads n
  {
    n.next == x || (!n.isReference && n.child == x)
  }

  // No item is reached by two links.
  ghost predicate Unshared(nodes: seq<Node>)
    reads nodes
  {
    && (forall a, b, x | a in nodes && b in nodes && x in nodes && LeadsTo(a, x) && LeadsTo(b, x) :: a == b)
    && (forall a <- nodes :: a.next == null || a.isReference || a.next != a.child)
  }

  // A chain is determined by where it starts.
  lemma {:induction false} ChainIsUnique(item: Node?, a: seq<Tree>, b: seq<Tree>, heap: set<Node>)
    requires Chained(item, a, heap) && Chained(item, b, heap)
    ensures a == b
    decreases a
  {
    if item != null {
      if !item.isReference { ChainIsUnique(item.child, a[0].kids, b[0].kids, heap); }
      ChainIsUnique(item.next, a[1..], b[1..], heap);
      assert a == [a[0]] + a[1..] && b == [b[0]] + b[1..];
    }
  }

  lemma Split(forest: seq<Tree>, x: Node)
    requires forest != [] && x in Nodes(forest)
    ensures x in Nodes(forest[0].kids) || x == forest[0].root || x in Nodes(forest[1..])
  {
  }

  // Where a link leads from an item of a chain, a shorter chain starts.
  lemma {:induction false} LinkedChain(item: Node?, forest: seq<Tree>, heap: set<Node>, n: Node, x: Node)
    returns (below: seq<Tree>)
    requires Chained(item, forest, heap) && n in Nodes(forest) && LeadsTo(n, x)
    ensures Chained(x, below, heap) && |Nodes(below)| < |Nodes(forest)|
    ensures x in Nodes(forest)
    decreases forest
  {
    Split(forest, n);
    var kids, rest := forest[0].kids, forest[1..];
    if n in Nodes(kids) {
      below := LinkedChain(item.child, kids, heap, n, x);
    } else if n in Nodes(rest) {
      below := LinkedChain(item.next, rest, heap, n, x);
    } else if n.next == x {
      below := rest;
    } else {
      below := kids;
    }
  }

  // No item of a chain leads back to where the chain starts.
  lemma NoWayBack(item: Node, forest: seq<Tree>, heap: set<Node>, n: Node)
    requires Chained(item, forest, heap) && n in Nodes(forest)
    ensures !LeadsTo(n, item)
  {
    if LeadsTo(n, item) {
      var below := LinkedChain(item, forest, heap, n, item);
      ChainIsUnique(item, forest, below, heap);
    }
  }

  // Every other item of a chain is led to from one of them.
  lemma {:induction false} HasPredecessor(item: Node?, forest: seq<Tree>, heap: set<Node>, x: Node) returns (n: Node)
    requires Chained(item, forest, heap) && x in Nodes(forest) && x != item
    ensures n in Nodes(forest) && LeadsTo(n, x)
    decreases forest
  {
    Split(forest, x);
    var kids, rest := forest[0].kids, forest[1..];
    if x == item.next || (!item.isReference && x == item.child) {
      n := item;
    } else if x in Nodes(kids) {
      n := HasPredecessor(item.child, kids, heap, x);
    } else {
      n := HasPredecessor(item.next, rest, heap, x);
    }
  }

  // A chain that starts outside a set no link enters stays outside.
  lemma {:induction false} StaysOutside(item: Node?, forest: seq<Tree>, heap: set<Node>, inside: seq<Node>)
    requires Chained(item, forest, heap) && (item != null ==> item !in inside)
    requires forall n, x | n in Nodes(forest) && x in inside && LeadsTo(n, x) :: n in inside
    ensures forall n <- Nodes(forest) :: n !in inside
    decreases forest
  {
    if forest != [] {
      assert item in Nodes(forest);
      if item.next != null && item.next in inside { assert LeadsTo(item, item.next); }
      if !item.isReference && item.child != null && item.child in inside { assert LeadsTo(item, item.child); }
      if !item.isReference { StaysOutside(item.child, forest[0].kids, heap, inside); }
      StaysOutside(item.next, forest[1..], heap, inside);
      forall n <- Nodes(forest) ensures n !in inside { Split(forest, n); }
    }
  }

  lemma OnceParts(a: seq<Node>, r: Node, b: seq<Node>)
    ensures Once(a + [r] + b) <==> Once(a) && Once(b) && r !in a && r !in b && forall n <- a :: n !in b
  {
    var all, k := a + [r] + b, |a|;
    assert all[k] == r && forall i | 0 <= i < k :: all[i] == a[i];
    assert forall i | k < i < |all| :: all[i] == b[i - k - 1];
    if Once(all) {
      forall j | 0 <= j < |b| ensures b[j] != r { assert all[k] != all[k + 1 + j]; }
      forall i | 0 <= i < k ensures a[i] != r && a[i] !in b {
        assert all[i] != all[k];
        forall j | 0 <= j < |b| ensures a[i] != b[j] { assert all[i] != all[k + 1 + j]; }
      }
      forall i, j | 0 <= i < j < |b| ensures b[i] != b[j] { assert all[k + 1 + i] != all[k + 1 + j]; }
    } else {
      var i, j :| 0 <= i < j < |all| && all[i] == all[j];
      assert i < k ==> all[i] in a;
      assert j > k ==> all[j] in b;
    }
  }

  lemma PartsOf(forest: seq<Tree>)
    requires forest != []
    ensures Nodes(forest) == Nodes(forest[0].kids) + [forest[0].root] + Nodes(forest[1..])
  {
  }

  // The first item of a chain is not met again in it.
  lemma RootIsApart(item: Node, forest: seq<Tree>, heap: set<Node>)
    requires Chained(item, forest, heap)
    ensures item !in Nodes(forest[0].kids) && item !in Nodes(forest[1..])
  {
    PartsOf(forest);
    NoWayBack(item, forest, heap, item);
    if item in Nodes(forest[0].kids) {
      var n := HasPredecessor(item.child, forest[0].kids, heap, item);
      NoWayBack(item, forest, heap, n);
    }
    if item in Nodes(forest[1..]) {
      var n := HasPredecessor(item.next, forest[1..], heap, item);
      NoWayBack(item, forest, heap, n);
    }
  }

  lemma PartsAreApart(item: Node, forest: seq<Tree>, heap: set<Node>)
    requires Chained(item, forest, heap) && Unshared(Nodes(forest))
    ensures forall n <- Nodes(forest[0].kids) :: n !in Nodes(forest[1..])
  {
    var kids, rest := Nodes(forest[0].kids), Nodes(forest[1..]);
    PartsOf(forest);
    RootIsApart(item, forest, heap);
    if !item.isReference {
      if item.child != null && item.child in rest {
        var n := HasPredecessor(item.next, forest[1..], heap, item.child);
        assert LeadsTo(item, item.child);
      }
      forall n, x | n in kids && x in rest && LeadsTo(n, x) ensures n in rest {
        if x == item.next {
          assert LeadsTo(item, x);
        } else {
          var p := HasPredecessor(item.next, forest[1..], heap, x);
          assert n == p;
        }
      }
      StaysOutside(item.child, forest[0].kids, heap, rest);
    }
  }

  lemma {:induction false} UnsharedIsOnce(item: Node?, forest: seq<Tree>, heap: set<Node>)
    requires Chained(item, forest, heap) && Unshared(Nodes(forest))
    ensures Once(Nodes(forest))
    decreases forest
  {
    if item != null {
      PartsOf(forest);
      RootIsApart(item, forest, heap);
      PartsAreApart(item, forest, heap);
      if !item.isReference { UnsharedIsOnce(item.child, forest[0].kids, heap); }
      UnsharedIsOnce(item.next, forest[1..], heap);
      OnceParts(Nodes(forest[0].kids), item, Nodes(forest[1..]));
    }
  }

  // A link from what the first item owns, or from what follows it, stays there.
  lemma LinkStays(item: Node, forest: seq<Tree>, heap: set<Node>, n: Node, x: Node)
    requires Chained(item, forest, heap) && LeadsTo(n, x)
    ensures n in Nodes(forest[0].kids) ==> x in Nodes(forest[0].kids) && x != item.child
    ensures n in Nodes(forest[1..]) ==> x in Nodes(forest[1..]) && x != item.next
  {
    if n in Nodes(forest[0].kids) {
      var below := LinkedChain(item.child, forest[0].kids, heap, n, x);
      NoWayBack(item.child, forest[0].kids, heap, n);
    }
    if n in Nodes(forest[1..]) {
      var below := LinkedChain(item.next, forest[1..], heap, n, x);
      NoWayBack(item.next, forest[1..], heap, n);
    }
  }

  lemma RootLink(item: Node, forest: seq<Tree>, heap: set<Node>, x: Node)
    requires Chained(item, forest, heap) && LeadsTo(item, x)
    ensures (x == item.child && x in Nodes(forest[0].kids)) || (x == item.next && x in Nodes(forest[1..]))
  {
  }

  lemma {:induction false} OneLink(item: Node?, forest: seq<Tree>, heap: set<Node>, a: Node, b: Node, x: Node)
    requires Chained(item, forest, heap) && Once(Nodes(forest))
    requires a in Nodes(forest) && b in Nodes(forest) && LeadsTo(a, x) && LeadsTo(b, x)
    ensures a == b
    decreases forest
  {
    var kids, rest := forest[0].kids, forest[1..];
    PartsOf(forest);
    OnceParts(Nodes(kids), item, Nodes(rest));
    LinkStays(item, forest, heap, a, x);
    LinkStays(item, forest, heap, b, x);
    if a == item || b == item { RootLink(item, forest, heap, x); }
    if a in Nodes(kids) && b in Nodes(kids) {
      OneLink(item.child, kids, heap, a, b, x);
    } else if a in Nodes(rest) && b in Nodes(rest) {
      OneLink(item.next, rest, heap, a, b, x);
    }
  }

  lemma {:induction false} LinksPart(item: Node?, forest: seq<Tree>, heap: set<Node>, a: Node)
    requires Chained(item, forest, heap) && Once(Nodes(forest)) && a in Nodes(forest)
    ensures a.next == null || a.isReference || a.next != a.child
    decreases forest
  {
    var kids, rest := forest[0].kids, forest[1..];
    PartsOf(forest);
    OnceParts(Nodes(kids), item, Nodes(rest));
    if a in Nodes(kids) {
      LinksPart(item.child, kids, heap, a);
    } else if a in Nodes(rest) {
      LinksPart(item.next, rest, heap, a);
    } else if item.next != null && !item.isReference && item.child != null {
      assert item.child in Nodes(kids) by { PartsOf(kids); }
      assert item.next in Nodes(rest) by { PartsOf(rest); }
    }
  }

  // Every item of a chain comes once exactly if no item is reached by two links.
  lemma OnceIffUnshared(item: Node?, forest: seq<Tree>, heap: set<Node>)
    requires Chained(item, forest, heap)
    ensures Once(Nodes(forest)) <==> Unshared(Nodes(forest))
  {
    var nodes := Nodes(forest);
    if Unshared(nodes) { UnsharedIsOnce(item, forest, heap); }
    if Once(nodes) {
      forall a, b, x | a in nodes && b in nodes && x in nodes && LeadsTo(a, x) && LeadsTo(b, x) ensures a == b {
        OneLink(item, forest, heap, a, b, x);
      }
      forall a <- nodes ensures a.next == null || a.isReference || a.next != a.child {
        LinksPart(item, forest, heap, a);
      }
    }
  }

  lemma Regroup<T>(a: seq<T>, b: seq<T>, c: seq<T>, d: seq<T>)
    ensures a + (b + c + d) == a + b + c + d
  {
  }

  // Two items of a chain that own the same child.
  lemma SharedChildComesTwice(a: Node, b: Node, c: Node) returns (forest: seq<Tree>)
    requires !a.isReference && !b.isReference && a.next == b && b.next == null && a.child == b.child == c
    requires c.next == null && c.child == null
    ensures Chained(a, forest, {a, b, c}) && Nodes(forest) == [c, a, c, b]
  {
    var one := Tree(c, []);
    assert [one][1..] == [] && Nodes([]) == [];
    assert Nodes([one]) == [c];
    assert Chained(c, [one], {a, b, c});
    assert [Tree(b, [one])][1..] == [];
    assert Chained(b, [Tree(b, [one])], {a, b, c});
    assert Nodes([Tree(b, [one])]) == [c, b];
    forest := [Tree(a, [one]), Tree(b, [one])];
    assert forest[1..] == [Tree(b, [one])];
  }

  lemma OwnerIsApart(item: Node, kids: seq<Tree>, heap: set<Node>)
    requires if item.isReference then kids == [] else Chained(item.child, kids, heap)
    requires item !in heap
    ensures Once(Nodes(kids) + [item]) <==> Unshared(Nodes(kids))
  {
    if !item.isReference {
      ChainedWithin(item.child, kids, heap, heap);
      OnceIffUnshared(item.child, kids, heap);
    }
    OnceParts(Nodes(kids), item, []);
    assert Nodes(kids) + [item] + [] == Nodes(kids) + [item];
  }

  // cJSON_Delete: what it frees, in order. OnceIffUnshared says when that is each item
  // once.
  method Delete(first: Node?, ghost forest: seq<Tree>, ghost heap: set<Node>) returns (freed: seq<Node>)
    requires Chained(first, forest, heap)
    ensures freed == Nodes(forest)
    decreases forest
  {
    freed := [];
    var item := first;
    ghost var left := forest;
    while item != null
      invariant Chained(item, left, heap) && freed + Nodes(left) == Nodes(forest)
      invariant left == forest || (forest decreases to left)
      decreases left
    {
      var next := item.next;
      ghost var kids, rest := left[0].kids, left[1..];
      var below := [];
      if !item.isReference && item.child != null {
        below := Delete(item.child, kids, heap);
      }
      assert below == Nodes(kids);
      Regroup(freed, below, [item], Nodes(rest));
      freed := freed + below + [item];
      left, item := rest, next;
    }
    assert freed + [] == freed;
  }

  predicate CanReplace(parent: Node?, item: Node?, replacement: Node?, size: nat) {
    parent != null && size > 0 && item != null && replacement != null
  }

  predicate Swaps(parent: Node?, item: Node?, replacement: Node?, size: nat) {
    CanReplace(parent, item, replacement, size) && item != replacement
  }

  // The links of cJSON_ReplaceItemViaPointer; `at` is the place of the item replaced.
  method Relink(parent: Node?, item: Node?, replacement: Node?, ghost nodes: seq<Node>, ghost at: nat)
    returns (ok: bool)
    requires parent != null ==> ListOf(parent, nodes)
    requires CanReplace(parent, item, replacement, |nodes|) ==> at < |nodes| && nodes[at] == item
    requires replacement == item || replacement !in nodes
    modifies At(parent, Swaps(parent, item, replacement, |nodes|))`child,
             At(replacement, Swaps(parent, item, replacement, |nodes|))`next,
             At(replacement, Swaps(parent, item, replacement, |nodes|))`prev,
             Members(nodes, Swaps(parent, item, replacement, |nodes|))`next,
             Members(nodes, Swaps(parent, item, replacement, |nodes|))`prev
    ensures ok == CanReplace(parent, item, replacement, |nodes|)
    ensures ok ==> ListOf(parent, nodes[at := replacement])
    ensures ok && replacement != item ==> item.next == null && item.prev == null
  {
    if parent == null || parent.child == null || replacement == null || item == null {
      return false;
    }
    if replacement == item {
      return true;
    }
    assert at > 0 ==> item.prev == nodes[at - 1];
    assert at < |nodes| - 1 ==> item.next == nodes[at + 1];
    replacement.next := item.next;
    replacement.prev := item.prev;
    if replacement.next != null {
      replacement.next.prev := replacement;
    }
    if parent.child == item {
      if parent.child.prev == parent.child {
        replacement.prev := replacement;
      }
      parent.child := replacement;
    } else {
      if replacement.prev != null {
        replacement.prev.next := replacement;
      }
      if replacement.next == null {
        parent.child.prev := replacement;
      }
    }
    item.next := null;
    item.prev := null;
    PutInPlaceIsUpdate(parent, nodes, at, replacement);
    return true;
  }

  // cJSON_ReplaceItemViaPointer; `kids` is what the item replaced owns, in `heap`, all of
  // which is freed, and nothing else.
  method Replace(parent: Node?, item: Node?, replacement: Node?, ghost nodes: seq<Node>, ghost at: nat,
                 ghost kids: seq<Tree>, ghost heap: set<Node>)
    returns (ok: bool, freed: seq<Node>)
    requires parent != null ==> ListOf(parent, nodes)
    requires CanReplace(parent, item, replacement, |nodes|) ==> at < |nodes| && nodes[at] == item
    requires replacement == item || replacement !in nodes
    requires Swaps(parent, item, replacement, |nodes|) ==>
               && (if item.isReference then kids == [] else Chained(item.child, kids, heap))
               && heap !! {parent, replacement} + set n | n in nodes
    modifies At(parent, Swaps(parent, item, replacement, |nodes|))`child,
             At(replacement, Swaps(parent, item, replacement, |nodes|))`next,
             At(replacement, Swaps(parent, item, replacement, |nodes|))`prev,
             Members(nodes, Swaps(parent, item, replacement, |nodes|))`next,
             Members(nodes, Swaps(parent, item, replacement, |nodes|))`prev
    ensures ok == CanReplace(parent, item, replacement, |nodes|)
    ensures ok ==> ListOf(parent, nodes[at := replacement])
    ensures freed == if Swaps(parent, item, replacement, |nodes|) then Nodes(kids) + [item] else []
    ensures ok ==> forall n <- freed :: n !in nodes[at := replacement]
    ensures Swaps(parent, item, replacement, |nodes|) ==> (Once(freed) <==> Unshared(Nodes(kids)))
  {
    ghost var swaps := Swaps(parent, item, replacement, |nodes|);
    ok := Relink(parent, item, replacement, nodes, at);
    if !ok || replacement == item {
      return ok, [];
    }
    assert [Tree(item, kids)][1..] == [];
    if !item.isReference { ChainedWithin(item.child, kids, heap, heap + {item}); }
    freed := Delete(item, [Tree(item, kids)], heap + {item});
    assert Nodes([Tree(item, kids)]) == Nodes(kids) + [item];
    OwnerIsApart(item, kids, heap);
  }
}
