/** The slot allocator: entries by index, the vacant ones linked last-freed-first (src/engine/arena.rs). */
module Arena {
  import opened Domain

  /** Rust's `u32`. */
  type Slot = s: int | 0 <= s < 0x1_0000_0000

  const SLOT_LIMIT: int := 0x1_0000_0000

  /** An order and the slots before and behind it in its level's queue. */
  datatype OrderNode = OrderNode(order: Order, prev: Option<Slot>, next: Option<Slot>)

  datatype Entry = Occupied(node: OrderNode) | Vacant(nextFree: Option<Slot>)

  /** The arena as its users see it: which slots hold which nodes. */
  type Nodes = map<Slot, OrderNode>

  /** The slot at position `i` of a queue, or None past either end. */
  ghost function At(q: seq<Slot>, i: int): Option<Slot> {
    if 0 <= i < |q| then Some(q[i]) else None
  }

  ghost predicate Distinct(q: seq<Slot>) {
    forall i, j :: 0 <= i < j < |q| ==> q[i] != q[j]
  }

  /** Starting from `head`, the vacant entries link up to exactly `free`. */
  ghost predicate FreeChain(entries: seq<Entry>, head: Option<Slot>, free: seq<Slot>) {
    && head == At(free, 0)
    && Distinct(free)
    && (forall i :: 0 <= i < |free| ==> free[i] < |entries|)
    && (forall i {:trigger entries[free[i]]} :: 0 <= i < |free| ==> entries[free[i]] == Vacant(At(free, i + 1)))
  }

  lemma PopChain(entries: seq<Entry>, free: seq<Slot>, node: OrderNode)
    requires free != [] && FreeChain(entries, At(free, 0), free)
    ensures FreeChain(entries[free[0] := Occupied(node)], At(free, 1), free[1..])
  {
    var entries', free' := entries[free[0] := Occupied(node)], free[1..];
    forall i | 0 <= i < |free'|
      ensures free'[i] < |entries'| && entries'[free'[i]] == Vacant(At(free', i + 1))
    {
      assert free'[i] == free[i + 1];
    }
  }

  ghost function NodesOf(entries: seq<Entry>): Nodes {
    map s: Slot | 0 <= s < |entries| && entries[s].Occupied? :: entries[s].node
  }

  /** Storing a node in a vacant slot or at the end adds exactly one entry to the view. */
  lemma NodesGrow(entries: seq<Entry>, entries': seq<Entry>, slot: Slot, node: OrderNode)
    requires slot < |entries'|
    requires slot < |entries| ==> entries[slot].Vacant?
    requires entries' == if slot < |entries| then entries[slot := Occupied(node)] else entries + [Occupied(node)]
    ensures slot !in NodesOf(entries)
    ensures NodesOf(entries') == NodesOf(entries)[slot := node]
    ensures |NodesOf(entries')| == |NodesOf(entries)| + 1
  {
    assert NodesOf(entries') == NodesOf(entries)[slot := node];
    assert NodesOf(entries').Keys == NodesOf(entries).Keys + {slot};
  }

  lemma NodesShrink(entries: seq<Entry>, slot: Slot, nextFree: Option<Slot>)
    requires slot in NodesOf(entries)
    ensures NodesOf(entries[slot := Vacant(nextFree)]) == NodesOf(entries) - {slot}
    ensures |NodesOf(entries[slot := Vacant(nextFree)])| == |NodesOf(entries)| - 1
  {
    assert NodesOf(entries).Keys == NodesOf(entries[slot := Vacant(nextFree)]).Keys + {slot};
  }

  lemma NodesWrite(entries: seq<Entry>, slot: Slot, node: OrderNode)
    requires slot in NodesOf(entries)
    ensures NodesOf(entries[slot := Occupied(node)]) == NodesOf(entries)[slot := node]
    ensures |NodesOf(entries[slot := Occupied(node)])| == |NodesOf(entries)|
  {
    assert NodesOf(entries[slot := Occupied(node)]).Keys == NodesOf(entries).Keys;
  }

  lemma PushChain(entries: seq<Entry>, free: seq<Slot>, slot: Slot)
    requires FreeChain(entries, At(free, 0), free) && slot in NodesOf(entries)
    ensures FreeChain(entries[slot := Vacant(At(free, 0))], Some(slot), [slot] + free)
  {
    var entries', free' := entries[slot := Vacant(At(free, 0))], [slot] + free;
    forall i | 0 <= i < |free'|
      ensures free'[i] < |entries'| && entries'[free'[i]] == Vacant(At(free', i + 1))
    {
      assert i > 0 ==> free'[i] == free[i - 1];
    }
  }

  /** The free list runs through exactly the vacant slots, and `len` counts the others. */
  ghost predicate Slab(entries: seq<Entry>, freeHead: Option<Slot>, len: nat, free: seq<Slot>, nodes: Nodes) {
    && |entries| <= SLOT_LIMIT
    && FreeChain(entries, freeHead, free)
    && (forall s: Slot :: 0 <= s < |entries| && entries[s].Vacant? ==> s in free)
    && nodes == NodesOf(entries)
    && len == |nodes|
    && len + |free| == |entries|
  }

  class OrderArena {
    var entries: seq<Entry>
    var freeHead: Option<Slot>
    var len: nat

    /** The vacant slots, next to be reused first. */
    ghost var free: seq<Slot>

    /** Which slots hold which nodes. */
    ghost var nodes: Nodes

    ghost predicate Valid()
      reads this
    {
      Slab(entries, freeHead, len, free, nodes)
    }

    constructor ()
      ensures Valid() && nodes == map[] && |entries| == 0
    {
      entries, freeHead, len, free, nodes := [], None, 0, [], map[];
    }

    /** The new node goes to the head of `free`, or to a new slot at the end if `free` is empty. */
    method Insert(order: Order) returns (slot: Slot)
      requires Valid() && len < SLOT_LIMIT
      modifies this
      ensures Valid()
      ensures slot !in old(nodes) && nodes == old(nodes)[slot := OrderNode(order, None, None)]
      ensures len == old(len) + 1 && |entries| == Max(old(|entries|), len)
      ensures if old(free) == [] then slot == |old(entries)| && free == []
              else slot == old(free)[0] && free == old(free)[1..]
    {
      ghost var before := entries;
      var node := OrderNode(order, None, None);
      len := len + 1;
      if freeHead.None? {
        slot := |entries|;
        entries := entries + [Occupied(node)];
      } else {
        slot := freeHead.value;
        freeHead := entries[slot].nextFree;
        entries := entries[slot := Occupied(node)];
        PopChain(before, free, node);
        free := free[1..];
      }
      NodesGrow(before, entries, slot, node);
      nodes := nodes[slot := node];
    }

    /** The node leaves the view and its slot becomes the head of `free`. */
    method Remove(slot: Slot) returns (order: Order)
      requires Valid() && slot in nodes
      modifies this
      ensures Valid()
      ensures order == old(nodes)[slot].order && nodes == old(nodes) - {slot}
      ensures len == old(len) - 1 && free == [slot] + old(free) && |entries| == old(|entries|) >= len
    {
      NodesShrink(entries, slot, freeHead);
      PushChain(entries, free, slot);
      order := entries[slot].node.order;
      entries := entries[slot := Vacant(freeHead)];
      freeHead := Some(slot);
      free, nodes := [slot] + free, nodes - {slot};
      len := len - 1;
    }

    /** There are never fewer entries than stored orders. */
    lemma LenFits()
      requires Valid()
      ensures len <= |entries|
    {
    }

    function Get(slot: Slot): (node: OrderNode)
      requires Valid() && slot in nodes
      reads this
      ensures node == nodes[slot]
    {
      entries[slot].node
    }

    /** Overwrite the node at an occupied slot: a write through the reference `get_mut` returns. */
    method Put(slot: Slot, node: OrderNode)
      requires Valid() && slot in nodes
      modifies this`entries, this`nodes
      ensures Valid() && nodes == old(nodes)[slot := node] && |entries| == old(|entries|)
    {
      NodesWrite(entries, slot, node);
      entries := entries[slot := Occupied(node)];
      nodes := nodes[slot := node];
    }
  }
}
