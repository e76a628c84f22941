/**
 One price level (src/engine/level.rs): the links of its nodes spell out a sequence of slots `q`, and appending
 to and unlinking from the list append to and drop from `q`.
 */
module Level {
  import opened Domain
  import opened Arena

  /** `head` and `tail` are the ends of `q`, whose links mirror each other and stop at both ends. */
  ghost predicate Linked(nodes: Nodes, head: Option<Slot>, tail: Option<Slot>, q: seq<Slot>) {
    && head == At(q, 0) && tail == At(q, |q| - 1)
    && Distinct(q)
    && (forall i :: 0 <= i < |q| ==> q[i] in nodes)
    && (forall i {:trigger nodes[q[i]]} :: 0 <= i < |q| ==>
          nodes[q[i]].prev == At(q, i - 1) && nodes[q[i]].next == At(q, i + 1))
  }

  ghost function QtyAt(nodes: Nodes, slot: Slot): nat {
    if slot in nodes then nodes[slot].order.remainingQty else 0
  }

  ghost function QueueTotal(nodes: Nodes, q: seq<Slot>): nat {
    if q == [] then 0 else QueueTotal(nodes, q[..|q| - 1]) + QtyAt(nodes, q[|q| - 1])
  }

  /** `q` with every occurrence of `slot` taken out. */
  ghost function Drop(q: seq<Slot>, slot: Slot): seq<Slot> {
    if q == [] then []
    else Drop(q[..|q| - 1], slot) + if q[|q| - 1] == slot then [] else [q[|q| - 1]]
  }

  /** Links may differ, orders may not. */
  ghost predicate SameOrders(a: Nodes, b: Nodes) {
    a.Keys == b.Keys && forall s :: s in a ==> a[s].order == b[s].order
  }

  /** `a` and `b` hold the same nodes except possibly at the slots of `q`. */
  ghost predicate SameOutside(a: Nodes, b: Nodes, q: seq<Slot>) {
    forall s :: s in a && s !in q ==> s in b && a[s] == b[s]
  }

  lemma {:induction false} DropAbsent(q: seq<Slot>, slot: Slot)
    requires slot !in q
    ensures Drop(q, slot) == q
  {
    if q != [] {
      DropAbsent(q[..|q| - 1], slot);
    }
  }

  lemma {:induction false} DropAt(q: seq<Slot>, k: nat)
    requires Distinct(q) && k < |q|
    ensures Drop(q, q[k]) == Without(q, k)
  {
    var last := |q| - 1;
    if k == last {
      DropAbsent(q[..last], q[k]);
      assert Without(q, k) == q[..last];
    } else {
      DropAt(q[..last], k);
      assert Without(q, k) == Without(q[..last], k) + [q[last]];
    }
  }

  lemma {:induction false} DropMembers(q: seq<Slot>, slot: Slot)
    ensures forall s :: s in Drop(q, slot) <==> s in q && s != slot
  {
    if q != [] {
      var last := |q| - 1;
      DropMembers(q[..last], slot);
      assert forall s :: s in q <==> s in q[..last] || s == q[last];
    }
  }

  lemma {:induction false} DropDistinct(q: seq<Slot>, slot: Slot)
    requires Distinct(q)
    ensures Distinct(Drop(q, slot))
  {
    if q != [] {
      var last := |q| - 1;
      var front := q[..last];
      DropDistinct(front, slot);
      DropMembers(front, slot);
      var d := Drop(front, slot);
      assert forall j :: 0 <= j < |d| ==> d[j] in d;
      assert forall j :: 0 <= j < last ==> q[j] == front[j];
    }
  }

  lemma {:induction false} TotalCong(a: Nodes, b: Nodes, q: seq<Slot>)
    requires forall s :: s in q ==> QtyAt(a, s) == QtyAt(b, s)
    ensures QueueTotal(a, q) == QueueTotal(b, q)
  {
    if q != [] {
      TotalCong(a, b, q[..|q| - 1]);
    }
  }

  lemma TotalPush(nodes: Nodes, q: seq<Slot>, slot: Slot)
    ensures QueueTotal(nodes, q + [slot]) == QueueTotal(nodes, q) + QtyAt(nodes, slot)
  {
    assert (q + [slot])[..|q|] == q;
  }

  lemma {:induction false} TotalDrop(nodes: Nodes, q: seq<Slot>, slot: Slot)
    requires Distinct(q) && slot in q
    ensures QueueTotal(nodes, q) == QueueTotal(nodes, Drop(q, slot)) + QtyAt(nodes, slot)
  {
    var last := |q| - 1;
    if q[last] == slot {
      DropAbsent(q[..last], slot);
      assert Drop(q, slot) == q[..last];
    } else {
      TotalDrop(nodes, q[..last], slot);
      TotalPush(nodes, Drop(q[..last], slot), q[last]);
    }
  }

  /** Changing one order's quantity changes the total of its queue by the same amount. */
  lemma {:induction false} TotalPut(nodes: Nodes, q: seq<Slot>, slot: Slot, node: OrderNode)
    requires Distinct(q) && slot in nodes
    ensures QueueTotal(nodes[slot := node], q)
            == QueueTotal(nodes, q) + if slot in q then node.order.remainingQty - QtyAt(nodes, slot) else 0
  {
    if q != [] {
      var last := |q| - 1;
      TotalPut(nodes, q[..last], slot, node);
      assert forall s :: s in q <==> s in q[..last] || s == q[last];
    }
  }

  /** A queue none of whose nodes changed is still linked, with the same total. */
  lemma LinkedFrame(a: Nodes, b: Nodes, head: Option<Slot>, tail: Option<Slot>, q: seq<Slot>)
    requires Linked(a, head, tail, q)
    requires forall s :: s in q ==> s in b && a[s] == b[s]
    ensures Linked(b, head, tail, q) && QueueTotal(b, q) == QueueTotal(a, q)
  {
    TotalCong(a, b, q);
  }

  ghost predicate Pushable(nodes: Nodes, tail: Option<Slot>, slot: Slot) {
    slot in nodes && (tail.Some? ==> tail.value in nodes && tail.value != slot)
  }

  /** The node writes of `push_back`. */
  ghost function Pushed(nodes: Nodes, tail: Option<Slot>, slot: Slot): Nodes
    requires Pushable(nodes, tail, slot)
  {
    var nodes1 := nodes[slot := nodes[slot].(prev := tail, next := None)];
    if tail.Some? then nodes1[tail.value := nodes1[tail.value].(next := Some(slot))] else nodes1
  }

  lemma PushedMirrored(nodes: Nodes, head: Option<Slot>, tail: Option<Slot>, q: seq<Slot>, slot: Slot)
    requires Linked(nodes, head, tail, q) && slot in nodes && slot !in q
    ensures Pushable(nodes, tail, slot)
    ensures var nodes', q' := Pushed(nodes, tail, slot), q + [slot];
            forall i :: 0 <= i < |q'| ==>
              q'[i] in nodes' && nodes'[q'[i]].prev == At(q', i - 1) && nodes'[q'[i]].next == At(q', i + 1)
  {
    var nodes', q' := Pushed(nodes, tail, slot), q + [slot];
    forall i | 0 <= i < |q'|
      ensures q'[i] in nodes' && nodes'[q'[i]].prev == At(q', i - 1) && nodes'[q'[i]].next == At(q', i + 1)
    {
      if i < |q| { assert q'[i] == q[i]; }
    }
  }

  lemma PushedHolds(nodes: Nodes, head: Option<Slot>, tail: Option<Slot>, q: seq<Slot>, slot: Slot)
    requires Linked(nodes, head, tail, q) && slot in nodes && slot !in q
    ensures Pushable(nodes, tail, slot)
    ensures Linked(Pushed(nodes, tail, slot), if tail.Some? then head else Some(slot), Some(slot), q + [slot])
    ensures QueueTotal(Pushed(nodes, tail, slot), q + [slot])
            == QueueTotal(nodes, q) + nodes[slot].order.remainingQty
    ensures SameOrders(nodes, Pushed(nodes, tail, slot))
    ensures SameOutside(nodes, Pushed(nodes, tail, slot), q + [slot])
  {
    PushedMirrored(nodes, head, tail, q, slot);
    PushedFrame(nodes, tail, q, slot);
    PushedEnds(q, slot);
    hide QueueTotal, Pushed, Distinct;
    var nodes' := Pushed(nodes, tail, slot);
    TotalPush(nodes', q, slot);
    TotalCong(nodes, nodes', q);
  }

  lemma PushedEnds(q: seq<Slot>, slot: Slot)
    requires Distinct(q) && slot !in q
    ensures Distinct(q + [slot])
    ensures At(q + [slot], 0) == (if q == [] then Some(slot) else At(q, 0)) && At(q + [slot], |q|) == Some(slot)
  {
  }

  lemma PushedFrame(nodes: Nodes, tail: Option<Slot>, q: seq<Slot>, slot: Slot)
    requires Pushable(nodes, tail, slot) && tail == At(q, |q| - 1)
    ensures SameOrders(nodes, Pushed(nodes, tail, slot))
    ensures SameOutside(nodes, Pushed(nodes, tail, slot), q + [slot])
  {
  }

  /** Both neighbours that the node at `slot` names, if any, are other nodes. */
  ghost predicate Linkable(nodes: Nodes, slot: Slot) {
    && slot in nodes
    && (nodes[slot].prev.Some? ==> nodes[slot].prev.value in nodes && nodes[slot].prev.value != slot)
    && (nodes[slot].next.Some? ==> nodes[slot].next.value in nodes && nodes[slot].next.value != slot)
  }

  /** The node writes of `unlink`. */
  ghost function Unlinked(nodes: Nodes, slot: Slot): Nodes
    requires Linkable(nodes, slot)
  {
    var prev, next := nodes[slot].prev, nodes[slot].next;
    var nodes1 := if prev.Some? then nodes[prev.value := nodes[prev.value].(next := next)] else nodes;
    if next.Some? then nodes1[next.value := nodes1[next.value].(prev := prev)] else nodes1
  }

  lemma QueueLinkable(nodes: Nodes, head: Option<Slot>, tail: Option<Slot>, q: seq<Slot>, k: nat)
    requires Linked(nodes, head, tail, q) && k < |q|
    ensures Linkable(nodes, q[k])
    ensures nodes[q[k]].prev == At(q, k - 1) && nodes[q[k]].next == At(q, k + 1)
  {
  }

  /** What `Unlinked` writes, node by node. */
  lemma UnlinkedAt(nodes: Nodes, slot: Slot, s: Slot)
    requires Linkable(nodes, slot) && s in nodes
    ensures s in Unlinked(nodes, slot)
    ensures var prev, next := nodes[slot].prev, nodes[slot].next;
            Unlinked(nodes, slot)[s]
            == nodes[s].(prev := if next == Some(s) then prev else nodes[s].prev,
                         next := if prev == Some(s) then next else nodes[s].next)
  {
  }

  /** In a queue without repetition, the neighbours of a position are found nowhere else. */
  lemma Neighbours(q: seq<Slot>, k: nat, i: nat)
    requires Distinct(q) && k < |q| && i < |q|
    ensures At(q, k - 1) == Some(q[i]) <==> i == k - 1
    ensures At(q, k + 1) == Some(q[i]) <==> i == k + 1
  {
  }

  lemma UnlinkedNode(nodes: Nodes, head: Option<Slot>, tail: Option<Slot>, q: seq<Slot>, k: nat, i: nat)
    requires Linked(nodes, head, tail, q) && k < |q| && i < |q| && i != k
    requires Linkable(nodes, q[k])
    ensures q[i] in Unlinked(nodes, q[k])
    ensures Unlinked(nodes, q[k])[q[i]].prev == At(q, if i == k + 1 then k - 1 else i - 1)
    ensures Unlinked(nodes, q[k])[q[i]].next == At(q, if i == k - 1 then k + 1 else i + 1)
  {
    QueueLinkable(nodes, head, tail, q, k);
    QueueLinkable(nodes, head, tail, q, i);
    UnlinkedAt(nodes, q[k], q[i]);
    Neighbours(q, k, i);
  }

  lemma UnlinkedMirroredAt(nodes: Nodes, head: Option<Slot>, tail: Option<Slot>, q: seq<Slot>, k: nat, i: nat)
    requires Linked(nodes, head, tail, q) && k < |q| && Linkable(nodes, q[k]) && i < |q| - 1
    ensures var nodes', q' := Unlinked(nodes, q[k]), Without(q, k);
            q'[i] in nodes' && nodes'[q'[i]].prev == At(q', i - 1) && nodes'[q'[i]].next == At(q', i + 1)
  {
    hide Linked, Linkable, Unlinked;
    var q' := Without(q, k);
    var j := if i < k then i else i + 1;
    UnlinkedNode(nodes, head, tail, q, k, j);
    assert q'[i] == q[j];
    assert At(q', i - 1) == At(q, if j == k + 1 then k - 1 else j - 1);
    assert At(q', i + 1) == At(q, if j == k - 1 then k + 1 else j + 1);
  }

  lemma UnlinkedMirrored(nodes: Nodes, head: Option<Slot>, tail: Option<Slot>, q: seq<Slot>, k: nat)
    requires Linked(nodes, head, tail, q) && k < |q| && Linkable(nodes, q[k])
    ensures forall i :: 0 <= i < |q| - 1 ==> Without(q, k)[i] in Unlinked(nodes, q[k])
    ensures forall i :: 0 <= i < |q| - 1 ==> Unlinked(nodes, q[k])[Without(q, k)[i]].prev == At(Without(q, k), i - 1)
    ensures forall i :: 0 <= i < |q| - 1 ==> Unlinked(nodes, q[k])[Without(q, k)[i]].next == At(Without(q, k), i + 1)
  {
    var nodes', q' := Unlinked(nodes, q[k]), Without(q, k);
    forall i | 0 <= i < |q'|
      ensures q'[i] in nodes' && nodes'[q'[i]].prev == At(q', i - 1) && nodes'[q'[i]].next == At(q', i + 1)
    {
      UnlinkedMirroredAt(nodes, head, tail, q, k, i);
    }
  }

  lemma UnlinkedLinked(nodes: Nodes, head: Option<Slot>, tail: Option<Slot>, q: seq<Slot>, k: nat)
    requires Linked(nodes, head, tail, q) && k < |q| && Linkable(nodes, q[k])
    ensures Linked(Unlinked(nodes, q[k]),
                   if k > 0 then head else nodes[q[k]].next,
                   if k + 1 < |q| then tail else nodes[q[k]].prev,
                   Drop(q, q[k]))
  {
    QueueLinkable(nodes, head, tail, q, k);
    DropAt(q, k);
    DropDistinct(q, q[k]);
    UnlinkedMirrored(nodes, head, tail, q, k);
  }

  lemma UnlinkedFrame(nodes: Nodes, head: Option<Slot>, tail: Option<Slot>, q: seq<Slot>, k: nat)
    requires Linked(nodes, head, tail, q) && k < |q| && Linkable(nodes, q[k])
    ensures SameOrders(nodes, Unlinked(nodes, q[k]))
    ensures SameOutside(nodes, Unlinked(nodes, q[k]), q)
  {
    QueueLinkable(nodes, head, tail, q, k);
    hide Linked, Linkable, Unlinked;
    UnlinkedKeys(nodes, q[k]);
    forall s | s in nodes
      ensures Unlinked(nodes, q[k])[s].order == nodes[s].order
      ensures s !in q ==> Unlinked(nodes, q[k])[s] == nodes[s]
    {
      UnlinkedAt(nodes, q[k], s);
    }
  }

  lemma UnlinkedKeys(nodes: Nodes, slot: Slot)
    requires Linkable(nodes, slot)
    ensures Unlinked(nodes, slot).Keys == nodes.Keys
  {
  }

  lemma UnlinkedHolds(nodes: Nodes, head: Option<Slot>, tail: Option<Slot>, q: seq<Slot>, slot: Slot)
    requires Linked(nodes, head, tail, q) && slot in q
    ensures Linkable(nodes, slot)
    ensures Linked(Unlinked(nodes, slot),
                   if nodes[slot].prev.Some? then head else nodes[slot].next,
                   if nodes[slot].next.Some? then tail else nodes[slot].prev,
                   Drop(q, slot))
    ensures QueueTotal(Unlinked(nodes, slot), Drop(q, slot)) == QueueTotal(nodes, q) - QtyAt(nodes, slot)
    ensures SameOrders(nodes, Unlinked(nodes, slot))
    ensures SameOutside(nodes, Unlinked(nodes, slot), q)
  {
    var k :| 0 <= k < |q| && q[k] == slot;
    QueueLinkable(nodes, head, tail, q, k);
    UnlinkedLinked(nodes, head, tail, q, k);
    UnlinkedFrame(nodes, head, tail, q, k);
    TotalDrop(nodes, q, slot);
    TotalCong(nodes, Unlinked(nodes, slot), Drop(q, slot));
  }

  /**
   One price level. Rust keeps this `Copy` struct by value in the ladder map, so it is a value here too:
   the operations write the arena in place and return the level to be written back to the map.
   */
  datatype PriceLevel = PriceLevel(
    head: Option<Slot>,      // the first slot of the queue
    tail: Option<Slot>,      // the last slot of the queue
    totalQuantity: Quantity)
  {
    predicate IsEmpty() {
      head.None?
    }

    /** The level's queue becomes `q + [slot]`; only links of its nodes are written. */
    method PushBack(arena: OrderArena, slot: Slot, ghost q: seq<Slot>) returns (level: PriceLevel)
      requires arena.Valid() && slot in arena.nodes && slot !in q && LevelOk(arena.nodes, this, q)
      requires totalQuantity + arena.nodes[slot].order.remainingQty <= U64_MAX
      modifies arena`entries, arena`nodes
      ensures arena.Valid() && |arena.entries| == old(|arena.entries|)
      ensures LevelOk(arena.nodes, level, q + [slot])
      ensures SameOrders(old(arena.nodes), arena.nodes)
      ensures SameOutside(old(arena.nodes), arena.nodes, q + [slot])
    {
      hide Linked, Pushed, Pushable, QueueTotal, SameOrders, SameOutside, Slab;
      PushedHolds(arena.nodes, head, tail, q, slot);
      level := WriteAtBack(arena, slot);
    }

    /** The writes of `push_back`. */
    method WriteAtBack(arena: OrderArena, slot: Slot) returns (level: PriceLevel)
      requires arena.Valid() && Pushable(arena.nodes, tail, slot)
      requires totalQuantity + arena.nodes[slot].order.remainingQty <= U64_MAX
      modifies arena`entries, arena`nodes
      ensures arena.Valid() && |arena.entries| == old(|arena.entries|)
      ensures arena.nodes == Pushed(old(arena.nodes), tail, slot)
      ensures level.head == (if tail.Some? then head else Some(slot)) && level.tail == Some(slot)
      ensures level.totalQuantity == totalQuantity + old(arena.nodes)[slot].order.remainingQty
    {
      var node := arena.Get(slot);
      arena.Put(slot, node.(prev := tail, next := None));
      level := this.(totalQuantity := totalQuantity + node.order.remainingQty);
      if tail.Some? {
        arena.Put(tail.value, arena.Get(tail.value).(next := Some(slot)));
      } else {
        level := level.(head := Some(slot));
      }
      level := level.(tail := Some(slot));
    }

    /** The level's queue becomes `q` without `slot`; only links of its nodes are written. */
    method Unlink(arena: OrderArena, slot: Slot, ghost q: seq<Slot>) returns (level: PriceLevel)
      requires arena.Valid() && slot in q && LevelOk(arena.nodes, this, q)
      modifies arena`entries, arena`nodes
      ensures arena.Valid() && |arena.entries| == old(|arena.entries|)
      ensures LevelOk(arena.nodes, level, Drop(q, slot))
      ensures SameOrders(old(arena.nodes), arena.nodes)
      ensures SameOutside(old(arena.nodes), arena.nodes, q)
    {
      hide Linked, Linkable, Unlinked, QueueTotal, SameOrders, SameOutside, Slab;
      UnlinkedHolds(arena.nodes, head, tail, q, slot);
      level := WriteAround(arena, slot);
    }

    /** The writes of `unlink`: join the neighbours of `slot`, or move the ends. */
    method WriteAround(arena: OrderArena, slot: Slot) returns (level: PriceLevel)
      requires arena.Valid() && Linkable(arena.nodes, slot)
      requires QtyAt(arena.nodes, slot) <= totalQuantity
      modifies arena`entries, arena`nodes
      ensures arena.Valid() && |arena.entries| == old(|arena.entries|)
      ensures arena.nodes == Unlinked(old(arena.nodes), slot)
      ensures level.totalQuantity == totalQuantity - old(arena.nodes)[slot].order.remainingQty
      ensures level.head == old(if arena.nodes[slot].prev.Some? then head else arena.nodes[slot].next)
      ensures level.tail == old(if arena.nodes[slot].next.Some? then tail else arena.nodes[slot].prev)
    {
      var node := arena.Get(slot);
      level := this.(totalQuantity := totalQuantity - node.order.remainingQty);
      if node.prev.Some? {
        arena.Put(node.prev.value, arena.Get(node.prev.value).(next := node.next));
      } else {
        level := level.(head := node.next);
      }
      if node.next.Some? {
        arena.Put(node.next.value, arena.Get(node.next.value).(prev := node.prev));
      } else {
        level := level.(tail := node.prev);
      }
    }
  }

  /** A level as Rust's `PriceLevel::default()` makes it. */
  const EMPTY_LEVEL: PriceLevel := PriceLevel(None, None, 0)

  /** The level is the queue `q` of `nodes`, and its cached total is exact. */
  ghost predicate LevelOk(nodes: Nodes, level: PriceLevel, q: seq<Slot>) {
    Linked(nodes, level.head, level.tail, q) && level.totalQuantity == QueueTotal(nodes, q)
  }
}
