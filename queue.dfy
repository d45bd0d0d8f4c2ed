/**
 * The arena-backed FIFO `Queue<T>` and its forward iterator.
 *
 * Each node lives in a region the queue obtained from its arena; `nodes` is
 * the queue's view of that storage, keyed by the region's offset, and a
 * node's `next` is the offset of its successor.  The ghost fields give the
 * abstract value: `contents` in FIFO order and `addrs`, the offset of the
 * node holding each element.
 */
module LinkedQueue {
  import opened Wrappers
  import ArenaSpec
  import opened MemoryResource

  /** One list node as stored in the arena: the payload and the successor's offset. */
  datatype Node<T> = Node(data: T, next: Option<nat>)

  /** The offset of the node holding element `i`, or None one past the last. */
  function Next(addrs: seq<nat>, i: nat): Option<nat> {
    if i < |addrs| then Some(addrs[i]) else None
  }

  /** Positions in two node lists with no offset in common name the same node only when both are past the end. */
  lemma NextOfDisjoint(a: seq<nat>, b: seq<nat>, i: nat, j: nat)
    ensures (forall x :: x in a ==> x !in b) && i <= |a| && j <= |b| ==> (Next(a, i) == Next(b, j) <==> i == |a| && j == |b|)
  {
    if i < |a| && j < |b| {
      assert a[i] in a && b[j] in b;
    }
  }

  /**
   * The chain from `head` visits exactly the nodes at `addrs` and holds
   * `contents` in order; `tail` is its last node; `head` and `tail` are
   * absent exactly when it is empty; no offset holds two nodes.
   */
  ghost predicate Chain<T>(head: Option<nat>, tail: Option<nat>, size: nat, nodes: map<nat, Node<T>>,
                           contents: seq<T>, addrs: seq<nat>)
  {
    && size == |contents| && |addrs| == |contents|
    && head == Next(addrs, 0)
    && tail == (if addrs == [] then None else Some(addrs[|addrs| - 1]))
    && ArenaSpec.Distinct(addrs)
    && (forall a :: a in nodes <==> a in addrs)
    && (forall i {:trigger nodes[addrs[i]]} :: 0 <= i < |addrs| ==> addrs[i] in nodes && nodes[addrs[i]] == Node(contents[i], Next(addrs, i + 1)))
  }

  /** Every node offset is an occupied region of the arena, aligned for a node. */
  ghost predicate Placed(addrs: seq<nat>, occupied: map<nat, nat>, alignment: nat)
    requires alignment > 0
  {
    forall i :: 0 <= i < |addrs| ==> addrs[i] in occupied && addrs[i] % alignment == 0
  }

  /** Linking a node at a new offset `a` behind the tail appends `v`. */
  lemma ChainPush<T>(head: Option<nat>, tail: Option<nat>, size: nat, nodes: map<nat, Node<T>>,
                     contents: seq<T>, addrs: seq<nat>, a: nat, v: T)
    requires Chain(head, tail, size, nodes, contents, addrs) && a !in addrs
    ensures size > 0 ==> tail.value in nodes
    ensures Chain(if size == 0 then Some(a) else head, Some(a), size + 1,
                  (if size == 0 then nodes else nodes[tail.value := nodes[tail.value].(next := Some(a))])[a := Node(v, None)],
                  contents + [v], addrs + [a])
  {
    var addrs1, contents1 := addrs + [a], contents + [v];
    var nodes1 := (if size == 0 then nodes else nodes[tail.value := nodes[tail.value].(next := Some(a))])[a := Node(v, None)];
    forall i | 0 <= i < |addrs1|
      ensures addrs1[i] in nodes1 && nodes1[addrs1[i]] == Node(contents1[i], Next(addrs1, i + 1))
    {
      if i < |addrs| - 1 {
        assert addrs1[i] == addrs[i] != addrs[|addrs| - 1];
      }
    }
  }

  /** Dropping the first offset keeps the rest distinct and free of it. */
  lemma DistinctTail(addrs: seq<nat>)
    requires ArenaSpec.Distinct(addrs) && |addrs| > 0
    ensures ArenaSpec.Distinct(addrs[1..]) && addrs[0] !in addrs[1..]
  {
    var rest := addrs[1..];
    forall i, j | 0 <= i < j < |rest|
      ensures rest[i] != rest[j]
    {
      assert rest[i] == addrs[i + 1] && rest[j] == addrs[j + 1];
    }
    forall i | 0 <= i < |rest|
      ensures rest[i] != addrs[0]
    {
      assert rest[i] == addrs[i + 1];
    }
  }

  /** Without the head node, the node table covers exactly the remaining offsets. */
  lemma PopKeys<T>(nodes: map<nat, Node<T>>, addrs: seq<nat>)
    requires |addrs| > 0 && addrs[0] !in addrs[1..]
    requires forall a :: a in nodes <==> a in addrs
    ensures forall b :: b in nodes - {addrs[0]} <==> b in addrs[1..]
  {
    assert addrs == [addrs[0]] + addrs[1..];
    forall b
      ensures b in addrs <==> b == addrs[0] || b in addrs[1..]
    {
    }
  }

  /** Without the head node, each remaining node still holds its element and successor. */
  lemma PopNodes<T>(nodes: map<nat, Node<T>>, contents: seq<T>, addrs: seq<nat>)
    requires |addrs| == |contents| > 0 && addrs[0] !in addrs[1..]
    requires forall a :: a in nodes <==> a in addrs
    requires forall i {:trigger nodes[addrs[i]]} :: 0 <= i < |addrs| ==>
               addrs[i] in nodes && nodes[addrs[i]] == Node(contents[i], Next(addrs, i + 1))
    ensures var addrs1, nodes1 := addrs[1..], nodes - {addrs[0]};
            forall i {:trigger nodes1[addrs1[i]]} :: 0 <= i < |addrs1| ==>
              addrs1[i] in nodes1 && nodes1[addrs1[i]] == Node(contents[1..][i], Next(addrs1, i + 1))
  {
    var addrs1, nodes1 := addrs[1..], nodes - {addrs[0]};
    forall i | 0 <= i < |addrs1|
      ensures addrs1[i] in nodes1 && nodes1[addrs1[i]] == Node(contents[1..][i], Next(addrs1, i + 1))
    {
      assert addrs1[i] == addrs[i + 1] && addrs1[i] != addrs[0];
      assert addrs[i + 1] in addrs;
      assert addrs[i + 1] in nodes && nodes[addrs[i + 1]] == Node(contents[i + 1], Next(addrs, i + 2));
    }
  }

  /** Unlinking the head node drops the first element. */
  lemma ChainPop<T>(head: Option<nat>, tail: Option<nat>, size: nat, nodes: map<nat, Node<T>>,
                    contents: seq<T>, addrs: seq<nat>)
    requires Chain(head, tail, size, nodes, contents, addrs) && size > 0
    ensures head == Some(addrs[0]) && addrs[0] in nodes
    ensures var head1 := nodes[addrs[0]].next;
            Chain(head1, if head1 == None then None else tail, size - 1, nodes - {addrs[0]}, contents[1..], addrs[1..])
  {
    DistinctTail(addrs);
    PopKeys(nodes, addrs);
    PopNodes(nodes, contents, addrs);
  }

  /** Overwriting the payload of element `i` changes that element only. */
  lemma StoreChain<T>(head: Option<nat>, tail: Option<nat>, size: nat, nodes: map<nat, Node<T>>,
                      contents: seq<T>, addrs: seq<nat>, i: nat, v: T)
    requires Chain(head, tail, size, nodes, contents, addrs) && i < |addrs|
    ensures addrs[i] in nodes
    ensures Chain(head, tail, size, nodes[addrs[i] := nodes[addrs[i]].(data := v)], contents[i := v], addrs)
  {
    var nodes1, contents1 := nodes[addrs[i] := nodes[addrs[i]].(data := v)], contents[i := v];
    forall j | 0 <= j < |addrs|
      ensures addrs[j] in nodes1 && nodes1[addrs[j]] == Node(contents1[j], Next(addrs, j + 1))
    {
      assert addrs[j] in nodes && nodes[addrs[j]] == Node(contents[j], Next(addrs, j + 1));
      if j != i {
        assert addrs[j] != addrs[i];
        assert nodes1[addrs[j]] == nodes[addrs[j]];
      }
    }
  }

  /** Placement survives any change that keeps every occupied offset occupied. */
  lemma PlacedGrow(addrs: seq<nat>, occupied: map<nat, nat>, occupied1: map<nat, nat>, alignment: nat)
    requires alignment > 0 && Placed(addrs, occupied, alignment) && occupied.Keys <= occupied1.Keys
    ensures Placed(addrs, occupied1, alignment)
  {
    forall i | 0 <= i < |addrs|
      ensures addrs[i] in occupied1
    {
      assert addrs[i] in occupied.Keys;
    }
  }

  /** A new node placed at an occupied aligned offset keeps the placement. */
  lemma PlacedPush(addrs: seq<nat>, occupied: map<nat, nat>, occupied1: map<nat, nat>, alignment: nat, a: nat)
    requires alignment > 0 && Placed(addrs, occupied, alignment) && occupied.Keys <= occupied1.Keys
    requires a in occupied1 && a % alignment == 0
    ensures Placed(addrs + [a], occupied1, alignment)
  {
    PlacedGrow(addrs, occupied, occupied1, alignment);
  }

  /** Releasing the head node's region keeps the other nodes placed. */
  lemma PlacedPop(addrs: seq<nat>, occupied: map<nat, nat>, occupied1: map<nat, nat>, alignment: nat)
    requires alignment > 0 && Placed(addrs, occupied, alignment) && |addrs| > 0 && addrs[0] !in addrs[1..]
    requires occupied1.Keys == occupied.Keys - {addrs[0]}
    ensures Placed(addrs[1..], occupied1, alignment)
  {
    var rest := addrs[1..];
    forall i | 0 <= i < |rest|
      ensures rest[i] in occupied1 && rest[i] % alignment == 0
    {
      assert rest[i] == addrs[i + 1] && rest[i] in addrs[1..];
      assert addrs[i + 1] in occupied.Keys;
    }
  }

  /** Placement survives releasing offsets that are not nodes. */
  lemma PlacedShrink(addrs: seq<nat>, occupied: map<nat, nat>, occupied1: map<nat, nat>, alignment: nat, gone: seq<nat>)
    requires alignment > 0 && Placed(addrs, occupied, alignment)
    requires forall a :: a in occupied1 <==> a in occupied && a !in gone
    requires forall a :: a in addrs ==> a !in gone
    ensures Placed(addrs, occupied1, alignment)
  {
    forall i | 0 <= i < |addrs|
      ensures addrs[i] in occupied1
    {
      assert addrs[i] in occupied.Keys;
    }
  }

  class Queue<T> {
    /** The memory resource every node comes from and goes back to. */
    const arena: FixedMemoryResource
    /** `sizeof(Node)` and `alignof(Node)`: what each push asks the arena for. */
    const nodeSize: nat
    const nodeAlign: nat

    var head: Option<nat>
    var tail: Option<nat>
    var size: nat
    var nodes: map<nat, Node<T>>

    ghost var contents: seq<T>
    ghost var addrs: seq<nat>
    /** The arena the current nodes were taken from. */
    ghost var owner: FixedMemoryResource

    /**
     * The chain holds `contents` at `addrs`; every node is an aligned,
     * occupied region of the queue's own arena.
     */
    ghost predicate Valid()
      reads this, arena
    {
      && arena.Valid() && arena.Tidy()
      && nodeSize > 0 && nodeAlign > 0
      && Chain(head, tail, size, nodes, contents, addrs)
      && Placed(addrs, arena.allocatedBlocks, nodeAlign)
      && (addrs != [] ==> owner == arena)
    }

    /** No node of this queue is a node of `other`. */
    ghost predicate SharesNoNode(other: Queue<T>)
      reads this, other
    {
      forall a :: a in addrs ==> a !in other.addrs
    }

    /** An empty queue drawing its nodes from `arena`. */
    constructor (arena: FixedMemoryResource, nodeSize: nat, nodeAlign: nat)
      requires arena.Valid() && arena.Tidy() && nodeSize > 0 && nodeAlign > 0
      ensures Valid() && contents == [] && addrs == []
      ensures this.arena == arena && this.nodeSize == nodeSize && this.nodeAlign == nodeAlign
    {
      this.arena := arena;
      this.nodeSize := nodeSize;
      this.nodeAlign := nodeAlign;
      head, tail, size, nodes := None, None, 0, map[];
      contents, addrs, owner := [], [], arena;
    }

    /**
     * Append `v` in a node taken from the arena.  The arena changes exactly as
     * `ArenaSpec.Allocate` says; if it runs out of memory the error is passed
     * on and the queue is untouched, otherwise the new node occupies a region
     * that was not occupied before and `v` becomes the last element.
     */
    method Push(v: T) returns (r: Outcome<Error>)
      requires Valid()
      modifies this, arena
      ensures Valid() && arena.hasPool == old(arena.hasPool)
      ensures var step := ArenaSpec.Allocate(old(arena.State()), nodeSize, nodeAlign);
              && arena.State() == step.state
              && (step.result.Failure? ==> r == Fail(OutOfMemory) && unchanged(this) && arena.State() == old(arena.State()))
              && (step.result.Success? ==>
                    && r == Pass
                    && contents == old(contents) + [v]
                    && addrs == old(addrs) + [step.result.value]
                    && step.result.value !in old(arena.allocatedBlocks)
                    && arena.allocatedBlocks.Keys == old(arena.allocatedBlocks.Keys) + {step.result.value})
    {
      ghost var occ0 := arena.allocatedBlocks;
      var res := AllocateNode();
      if res.Failure? {
        return Fail(res.error);
      }
      var a := res.value;
      assert a !in addrs;
      PlacedPush(addrs, occ0, arena.allocatedBlocks, nodeAlign, a);
      LinkTail(a, v);
      r := Pass;
    }

    /** Put `v` in a node at the new offset `a` behind the tail (the list half of `push`). */
    method LinkTail(a: nat, v: T)
      requires Chain(head, tail, size, nodes, contents, addrs) && a !in addrs
      modifies this
      ensures Chain(head, tail, size, nodes, contents, addrs)
      ensures contents == old(contents) + [v] && addrs == old(addrs) + [a] && owner == arena
    {
      ChainPush(head, tail, size, nodes, contents, addrs, a, v);
      if size == 0 {
        head := Some(a);
      } else {
        var t := tail.value;
        nodes := nodes[t := nodes[t].(next := Some(a))];
      }
      nodes := nodes[a := Node(v, None)];
      tail := Some(a);
      size := size + 1;
      contents, addrs, owner := contents + [v], addrs + [a], arena;
    }

    /**
     * Remove the first element.  An empty queue fails with EmptyQueue and
     * nothing changes; otherwise the head node's region is released to the
     * arena (exactly `ArenaSpec.Release`) and only that region stops being
     * occupied.
     */
    method Pop() returns (r: Outcome<Error>)
      requires Valid()
      modifies this, arena
      ensures Valid() && arena.hasPool == old(arena.hasPool)
      ensures old(contents) == [] ==> r == Fail(EmptyQueue) && unchanged(this) && unchanged(arena)
      ensures old(contents) != [] ==>
                && r == Pass
                && contents == old(contents)[1..] && addrs == old(addrs)[1..]
                && arena.State() == ArenaSpec.Release(old(arena.State()), old(addrs)[0], nodeSize).state
                && arena.allocatedBlocks.Keys == old(arena.allocatedBlocks.Keys) - {old(addrs)[0]}
    {
      if size == 0 {
        return Fail(EmptyQueue);
      }
      ghost var occ0, addrs0 := arena.allocatedBlocks, addrs;
      DistinctTail(addrs);
      var oldHead := UnlinkHead();
      ReleaseNode(oldHead);
      PlacedPop(addrs0, occ0, arena.allocatedBlocks, nodeAlign);
      r := Pass;
    }

    /** Detach the head node from the chain (the list half of `pop`); returns its offset. */
    method UnlinkHead() returns (a: nat)
      requires Chain(head, tail, size, nodes, contents, addrs) && size > 0
      modifies this
      ensures Chain(head, tail, size, nodes, contents, addrs)
      ensures a == old(addrs)[0] && contents == old(contents)[1..] && addrs == old(addrs)[1..]
      ensures owner == old(owner)
    {
      ChainPop(head, tail, size, nodes, contents, addrs);
      a := head.value;
      head := nodes[a].next;
      if head == None {
        tail := None;
      }
      nodes := nodes - {a};
      size := size - 1;
      contents, addrs := contents[1..], addrs[1..];
    }

    /** Take a region for one node from the arena (the `allocate` half of `push`). */
    method AllocateNode() returns (res: Result<nat, Error>)
      requires arena.Valid() && arena.Tidy() && nodeSize > 0 && nodeAlign > 0
      modifies arena
      ensures arena.Valid() && arena.Tidy() && arena.hasPool == old(arena.hasPool)
      ensures arena.State() == ArenaSpec.Allocate(old(arena.State()), nodeSize, nodeAlign).state
      ensures res == ArenaSpec.Allocate(old(arena.State()), nodeSize, nodeAlign).result
      ensures res.Failure? ==> res.error == OutOfMemory && arena.State() == old(arena.State())
      ensures res.Success? ==>
                && res.value !in old(arena.allocatedBlocks) && res.value % nodeAlign == 0
                && arena.allocatedBlocks.Keys == old(arena.allocatedBlocks.Keys) + {res.value}
    {
      ghost var s0 := arena.State();
      ArenaSpec.AllocateOutOfMemory(s0, nodeSize, nodeAlign);
      if ArenaSpec.Allocate(s0, nodeSize, nodeAlign).result.Success? {
        ArenaSpec.AllocateTidy(s0, nodeSize, nodeAlign);
      }
      res := arena.Allocate(nodeSize, nodeAlign);
    }

    /** Give the region of a node back to the arena (the `deallocate` half of `pop`). */
    method ReleaseNode(a: nat)
      requires arena.Valid() && arena.Tidy() && a in arena.allocatedBlocks
      modifies arena
      ensures arena.Valid() && arena.Tidy() && arena.hasPool == old(arena.hasPool)
      ensures arena.State() == ArenaSpec.Release(old(arena.State()), a, nodeSize).state
      ensures arena.allocatedBlocks.Keys == old(arena.allocatedBlocks.Keys) - {a}
    {
      ghost var s0 := arena.State();
      ArenaSpec.ReleaseKnown(s0, a, nodeSize);
      ArenaSpec.ReleaseTidy(s0, a, nodeSize);
      var released := arena.Deallocate(a, nodeSize, nodeAlign);
    }

    /** The first element, or EmptyQueue. */
    function Front(): (r: Result<T, Error>)
      reads this, arena
      requires Valid()
      ensures r == if contents == [] then Failure(EmptyQueue) else Success(contents[0])
    {
      if size == 0 then Failure(EmptyQueue) else Success(nodes[head.value].data)
    }

    /** The last element, or EmptyQueue. */
    function Back(): (r: Result<T, Error>)
      reads this, arena
      requires Valid()
      ensures r == if contents == [] then Failure(EmptyQueue) else Success(contents[|contents| - 1])
    {
      if size == 0 then Failure(EmptyQueue) else Success(nodes[tail.value].data)
    }

    function Empty(): (b: bool)
      reads this, arena
      requires Valid()
      ensures b <==> contents == []
    {
      size == 0
    }

    function Size(): (n: nat)
      reads this, arena
      requires Valid()
      ensures n == |contents|
    {
      size
    }

    /**
     * Pop until empty: the arena ends as if each node's region had been
     * released in FIFO order, and exactly those regions stop being occupied.
     */
    method Clear()
      requires Valid()
      modifies this, arena
      ensures Valid() && contents == [] && addrs == [] && nodes == map[]
      ensures arena.hasPool == old(arena.hasPool)
      ensures arena.State() == ArenaSpec.ReleaseAll(old(arena.State()), old(addrs), nodeSize)
      ensures forall a :: a in arena.allocatedBlocks <==> a in old(arena.allocatedBlocks) && a !in old(addrs)
    {
      ghost var s0, a0 := arena.State(), addrs;
      ArenaSpec.ReleaseAllEffect(s0, a0, nodeSize, nodeAlign);
      while !Empty()
        invariant Valid() && arena.hasPool == old(arena.hasPool)
        invariant ArenaSpec.ReleaseAll(arena.State(), addrs, nodeSize) == ArenaSpec.ReleaseAll(s0, a0, nodeSize)
        decreases size
      {
        var _ := Pop();
      }
    }

    /**
     * One step of the copy loop: push the element held by `other`'s node at
     * offset `at`, the node of element `i`, and hand back that node's
     * successor.  `s0` is the arena before the loop, which has served `i` node
     * requests so far; this one makes it `i + 1`, or none on OutOfMemory.
     */
    method PushCopyOf(other: Queue<T>, at: nat, ghost i: nat, ghost before: seq<T>, ghost s0: ArenaSpec.State)
      returns (r: Outcome<Error>, next: Option<nat>)
      requires Valid() && other.Valid() && other != this
      requires other.arena == arena ==> SharesNoNode(other)
      requires i < |other.addrs| && other.addrs[i] == at && contents == before + other.contents[..i]
      requires arena.State() == ArenaSpec.AllocateMany(s0, i, nodeSize, nodeAlign)
      modifies this, arena
      ensures Valid() && other.Valid() && arena.hasPool == old(arena.hasPool)
      ensures other.arena == arena ==> SharesNoNode(other)
      ensures r == Pass ==>
                && contents == before + other.contents[..i + 1]
                && arena.State() == ArenaSpec.AllocateMany(s0, i + 1, nodeSize, nodeAlign)
      ensures r != Pass ==>
                && r == Fail(OutOfMemory) && contents == old(contents) && arena.State() == old(arena.State())
                && ArenaSpec.Allocate(arena.State(), nodeSize, nodeAlign).result.Failure?
      ensures next == Next(other.addrs, i + 1)
    {
      assert other.nodes[other.addrs[i]] == Node(other.contents[i], Next(other.addrs, i + 1));
      assert other.contents[..i + 1] == other.contents[..i] + [other.contents[i]];
      ArenaSpec.AllocateManyLast(s0, i, nodeSize, nodeAlign);
      next := other.nodes[at].next;
      r := PushAlongside(other, other.nodes[at].data);
    }

    /**
     * `push` while another queue is in view: that queue stays valid, and
     * shares no node with this one if it did not before.
     */
    method PushAlongside(other: Queue<T>, v: T) returns (r: Outcome<Error>)
      requires Valid() && other.Valid() && other != this
      requires other.arena == arena ==> SharesNoNode(other)
      modifies this, arena
      ensures Valid() && other.Valid() && arena.hasPool == old(arena.hasPool)
      ensures other.arena == arena ==> SharesNoNode(other)
      ensures r == Pass ==>
                && contents == old(contents) + [v]
                && arena.State() == ArenaSpec.Allocate(old(arena.State()), nodeSize, nodeAlign).state
      ensures r != Pass ==>
                && r == Fail(OutOfMemory) && contents == old(contents) && arena.State() == old(arena.State())
                && ArenaSpec.Allocate(arena.State(), nodeSize, nodeAlign).result.Failure?
    {
      ghost var occ0 := arena.allocatedBlocks;
      r := Push(v);
      if r.Pass? && other.arena == arena {
        PlacedGrow(other.addrs, occ0, arena.allocatedBlocks, other.nodeAlign);
      }
    }

    /**
     * Push a copy of every element of `other`, following its chain from the
     * head (the loop shared by the copy constructor and copy assignment).  The
     * arena serves one node request per element; if it runs out of memory
     * part-way, the elements copied so far stay and the arena holds exactly
     * the allocations that succeeded.
     */
    method PushAll(other: Queue<T>) returns (r: Outcome<Error>)
      requires Valid() && other.Valid() && other != this
      requires other.arena == arena ==> SharesNoNode(other)
      modifies this, arena
      ensures Valid() && other.Valid() && arena.hasPool == old(arena.hasPool)
      ensures other.arena == arena ==> SharesNoNode(other)
      ensures r == Pass ==>
                && contents == old(contents) + other.contents
                && arena.State() == ArenaSpec.AllocateMany(old(arena.State()), |other.contents|, nodeSize, nodeAlign)
      ensures r != Pass ==>
                && r == Fail(OutOfMemory)
                && exists k :: && 0 <= k < |other.contents| && contents == old(contents) + other.contents[..k]
                               && arena.State() == ArenaSpec.AllocateMany(old(arena.State()), k, nodeSize, nodeAlign)
                               && ArenaSpec.Allocate(arena.State(), nodeSize, nodeAlign).result.Failure?
    {
      var cur := other.head;
      ghost var i: nat := 0;
      ghost var s0 := arena.State();
      while cur.Some?
        invariant Valid() && other.Valid() && arena.hasPool == old(arena.hasPool)
        invariant other.arena == arena ==> SharesNoNode(other)
        invariant i <= |other.addrs| && cur == Next(other.addrs, i)
        invariant contents == old(contents) + other.contents[..i]
        invariant arena.State() == ArenaSpec.AllocateMany(s0, i, nodeSize, nodeAlign)
        decreases |other.addrs| - i
      {
        r, cur := PushCopyOf(other, cur.value, i, old(contents), s0);
        if r.Fail? {
          assert && i < |other.contents| && contents == old(contents) + other.contents[..i]
                 && arena.State() == ArenaSpec.AllocateMany(s0, i, nodeSize, nodeAlign)
                 && ArenaSpec.Allocate(arena.State(), nodeSize, nodeAlign).result.Failure?;
          return;
        }
        i := i + 1;
      }
      assert other.contents[..i] == other.contents;
      r := Pass;
    }

    /**
     * Copy construction: a new queue on the same arena holding the same
     * elements in new nodes; `other` keeps its elements and shares no node
     * with the copy.
     */
    static method Copy(other: Queue<T>) returns (q: Queue<T>, r: Outcome<Error>)
      requires other.Valid()
      modifies other.arena
      ensures fresh(q) && q.Valid() && other.Valid()
      ensures q.arena == other.arena && q.nodeSize == other.nodeSize && q.nodeAlign == other.nodeAlign
      ensures q.SharesNoNode(other)
      ensures r == Pass ==>
                && q.contents == other.contents
                && other.arena.State()
                   == ArenaSpec.AllocateMany(old(other.arena.State()), |other.contents|, other.nodeSize, other.nodeAlign)
      ensures r != Pass ==>
                && r == Fail(OutOfMemory)
                && exists k :: && 0 <= k < |other.contents| && q.contents == other.contents[..k]
                               && other.arena.State()
                                  == ArenaSpec.AllocateMany(old(other.arena.State()), k, other.nodeSize, other.nodeAlign)
                               && ArenaSpec.Allocate(other.arena.State(), other.nodeSize, other.nodeAlign).result.Failure?
      ensures forall a :: a in old(other.arena.allocatedBlocks) ==> a in other.arena.allocatedBlocks
      ensures other.arena.poolSize == old(other.arena.poolSize) && old(other.arena.currentOffset) <= other.arena.currentOffset
    {
      q := new Queue(other.arena, other.nodeSize, other.nodeAlign);
      ghost var s0 := other.arena.State();
      r := q.PushAll(other);
      if r == Pass {
        ArenaSpec.AllocateManyGrows(s0, |other.contents|, other.nodeSize, other.nodeAlign);
      } else {
        ghost var k :| && 0 <= k < |other.contents| && q.contents == other.contents[..k]
                       && other.arena.State() == ArenaSpec.AllocateMany(s0, k, other.nodeSize, other.nodeAlign)
                       && ArenaSpec.Allocate(other.arena.State(), other.nodeSize, other.nodeAlign).result.Failure?;
        ArenaSpec.AllocateManyGrows(s0, k, other.nodeSize, other.nodeAlign);
      }
    }

    /**
     * Copy assignment: unless `other` is this queue, release every own node,
     * then push copies of `other`'s elements; `other` is left as it was.
     */
    method CopyAssign(other: Queue<T>) returns (r: Outcome<Error>)
      requires Valid() && other.Valid()
      requires other != this && other.arena == arena ==> SharesNoNode(other)
      modifies this, arena
      ensures Valid() && other.Valid()
      ensures other == this ==> r == Pass && unchanged(this) && unchanged(arena)
      ensures other != this && other.arena == arena ==> SharesNoNode(other)
      ensures other != this && r == Pass ==>
                && contents == other.contents
                && arena.State() == ArenaSpec.AllocateMany(ArenaSpec.ReleaseAll(old(arena.State()), old(addrs), nodeSize),
                                                           |other.contents|, nodeSize, nodeAlign)
      ensures other != this && r != Pass ==>
                && r == Fail(OutOfMemory)
                && exists k :: && 0 <= k < |other.contents| && contents == other.contents[..k]
                               && arena.State() == ArenaSpec.AllocateMany(ArenaSpec.ReleaseAll(old(arena.State()), old(addrs), nodeSize),
                                                                          k, nodeSize, nodeAlign)
                               && ArenaSpec.Allocate(arena.State(), nodeSize, nodeAlign).result.Failure?
      ensures other != this ==> forall a :: a in old(arena.allocatedBlocks) && a !in old(addrs) ==> a in arena.allocatedBlocks
    {
      if this == other {
        return Pass;
      }
      Clear();
      ghost var s1 := arena.State();
      r := PushAll(other);
      if r == Pass {
        ArenaSpec.AllocateManyGrows(s1, |other.contents|, nodeSize, nodeAlign);
      } else {
        ghost var k :| && 0 <= k < |other.contents| && contents == other.contents[..k]
                       && arena.State() == ArenaSpec.AllocateMany(s1, k, nodeSize, nodeAlign)
                       && ArenaSpec.Allocate(arena.State(), nodeSize, nodeAlign).result.Failure?;
        ArenaSpec.AllocateManyGrows(s1, k, nodeSize, nodeAlign);
      }
    }

    /**
     * Move construction: the new queue takes `other`'s nodes as they are
     * (no allocation) and adopts its arena; `other` is left empty.
     */
    constructor Move(other: Queue<T>)
      requires other.Valid()
      modifies other
      ensures Valid() && other.Valid()
      ensures arena == other.arena && nodeSize == other.nodeSize && nodeAlign == other.nodeAlign
      ensures contents == old(other.contents) && addrs == old(other.addrs)
      ensures other.contents == [] && other.size == 0 && other.head == None && other.tail == None
    {
      arena := other.arena;
      nodeSize, nodeAlign := other.nodeSize, other.nodeAlign;
      head, tail, size, nodes := other.head, other.tail, other.size, other.nodes;
      contents, addrs, owner := other.contents, other.addrs, other.owner;
      new;
      other.head, other.tail, other.size, other.nodes := None, None, 0, map[];
      other.contents, other.addrs := [], [];
    }

    /**
     * Move assignment as the program writes it: release every own node, then
     * take `other`'s chain while keeping this queue's own arena.  When the two
     * queues draw from different arenas and `other` is not empty, the queue
     * ends holding nodes of another arena that it would release into its own.
     */
    method MoveAssignAsWritten(other: Queue<T>)
      requires Valid() && other.Valid() && other.nodeSize == nodeSize && other.nodeAlign == nodeAlign
      requires other != this && other.arena == arena ==> SharesNoNode(other)
      modifies this, other, arena
      ensures other == this ==> unchanged(this) && unchanged(arena)
      ensures other != this ==>
                && contents == old(other.contents) && addrs == old(other.addrs) && owner == old(other.owner)
                && other.Valid() && other.contents == [] && other.size == 0 && other.head == None && other.tail == None
      ensures other != this ==>
                && arena.State() == ArenaSpec.ReleaseAll(old(arena.State()), old(addrs), nodeSize)
                && forall a :: a in arena.allocatedBlocks <==> a in old(arena.allocatedBlocks) && a !in old(addrs)
      ensures other != this && other.arena == arena ==> Valid()
      ensures other != this && other.arena != arena && old(other.contents) != [] ==> owner != arena && !Valid()
    {
      if this != other {
        ghost var occ0, mine := arena.allocatedBlocks, addrs;
        Clear();
        if other.arena == arena {
          PlacedShrink(other.addrs, occ0, arena.allocatedBlocks, other.nodeAlign, mine);
        }
        TakeChain(other);
      }
    }

    /** Take over `other`'s chain and ghost value as they are, leaving `other` empty (what a move does with `head_`, `tail_` and `size_`). */
    method TakeChain(other: Queue<T>)
      requires other != this && Chain(other.head, other.tail, other.size, other.nodes, other.contents, other.addrs)
      modifies this, other
      ensures Chain(head, tail, size, nodes, contents, addrs)
      ensures contents == old(other.contents) && addrs == old(other.addrs) && owner == old(other.owner)
      ensures other.contents == [] && other.addrs == [] && other.size == 0 && other.head == None && other.tail == None
      ensures other.nodes == map[] && other.owner == old(other.owner)
    {
      head, tail, size, nodes := other.head, other.tail, other.size, other.nodes;
      contents, addrs, owner := other.contents, other.addrs, other.owner;
      other.head, other.tail, other.size, other.nodes := None, None, 0, map[];
      other.contents, other.addrs := [], [];
    }

    /**
     * Move assignment that keeps the queue's own arena without ever holding
     * another arena's nodes: on a shared arena the chain is taken over in
     * O(1); across arenas the elements are copied into this queue's arena and
     * `other` is then cleared into its own.
     */
    method MoveAssign(other: Queue<T>) returns (r: Outcome<Error>)
      requires Valid() && other.Valid() && other.nodeSize == nodeSize && other.nodeAlign == nodeAlign
      requires other != this && other.arena == arena ==> SharesNoNode(other)
      modifies this, other, arena, other.arena
      ensures Valid() && other.Valid()
      ensures other == this ==> r == Pass && unchanged(this)
      ensures other != this && other.arena == arena ==>
                && r == Pass && addrs == old(other.addrs)
                && arena.State() == ArenaSpec.ReleaseAll(old(arena.State()), old(addrs), nodeSize)
      ensures other != this && r == Pass ==> contents == old(other.contents) && other.contents == []
      ensures other != this && other.arena != arena && r == Pass ==>
                && arena.State() == ArenaSpec.AllocateMany(ArenaSpec.ReleaseAll(old(arena.State()), old(addrs), nodeSize),
                                                           |old(other.contents)|, nodeSize, nodeAlign)
                && other.arena.State() == ArenaSpec.ReleaseAll(old(other.arena.State()), old(other.addrs), nodeSize)
      ensures other != this && r != Pass ==>
                && r == Fail(OutOfMemory) && other.contents == old(other.contents)
                && other.arena.State() == old(other.arena.State())
                && exists k :: && 0 <= k < |other.contents| && contents == other.contents[..k]
                               && arena.State() == ArenaSpec.AllocateMany(ArenaSpec.ReleaseAll(old(arena.State()), old(addrs), nodeSize),
                                                                          k, nodeSize, nodeAlign)
                               && ArenaSpec.Allocate(arena.State(), nodeSize, nodeAlign).result.Failure?
    {
      if this == other {
        return Pass;
      }
      if other.arena == arena {
        MoveAssignAsWritten(other);
        return Pass;
      }
      r := CopyAssign(other);
      if r == Pass {
        other.Clear();
      }
    }

    /** Replace the payload of the node at offset `a`, element `i`; the links stay as they are. */
    method StoreAt(a: nat, v: T, ghost i: nat)
      requires Valid() && i < |addrs| && addrs[i] == a
      modifies this
      ensures Valid() && addrs == old(addrs) && contents == old(contents)[i := v]
    {
      StoreChain(head, tail, size, nodes, contents, addrs, i, v);
      nodes := nodes[a := nodes[a].(data := v)];
      contents := contents[i := v];
    }

    /** An iterator at the first element (the end iterator if empty). */
    method Begin() returns (it: Iterator<T>)
      requires Valid()
      ensures fresh(it) && it.Valid() && it.queue == this && it.pos == 0
    {
      it := new Iterator(this, head, 0);
    }

    /** The iterator one past the last element. */
    method End() returns (it: Iterator<T>)
      requires Valid()
      ensures fresh(it) && it.Valid() && it.queue == this && it.pos == |contents|
    {
      it := new Iterator(this, None, |contents|);
    }
  }

  /** `Queue<T>::Iterator`: a position in the chain, `current` being the node's offset or None at the end. */
  class Iterator<T> {
    const queue: Queue<T>
    var current: Option<nat>
    /** The index of the element `current` holds. */
    ghost var pos: nat

    /** `current` is the node of element `pos`, or None at the end (the queue's own invariant is separate). */
    ghost predicate Valid()
      reads this, queue
    {
      pos <= |queue.contents| && current == Next(queue.addrs, pos)
    }

    constructor (queue: Queue<T>, current: Option<nat>, ghost pos: nat)
      requires pos <= |queue.contents| && current == Next(queue.addrs, pos)
      ensures Valid() && this.queue == queue && this.pos == pos
    {
      this.queue, this.current, this.pos := queue, current, pos;
    }

    /** `*it`: the element at the position, or EndCursorDereference past the last one. */
    function Deref(): (r: Result<T, Error>)
      reads this, queue, queue.arena
      requires queue.Valid() && Valid()
      ensures r == if pos < |queue.contents| then Success(queue.contents[pos]) else Failure(EndCursorDereference)
    {
      match current
      case None => Failure(EndCursorDereference)
      case Some(a) => Success(queue.nodes[a].data)
    }

    /** `it->`: where the element at the position is stored, or EndCursorDereference. */
    function Arrow(): (r: Result<nat, Error>)
      reads this, queue, queue.arena
      requires queue.Valid() && Valid()
      ensures r == if pos < |queue.contents| then Success(queue.addrs[pos]) else Failure(EndCursorDereference)
    {
      match current
      case None => Failure(EndCursorDereference)
      case Some(a) => Success(a)
    }

    /**
     * `*it = v`: write through the reference `*` returns.  Only that element
     * changes; past the end it fails with EndCursorDereference and nothing
     * changes.
     */
    method Store(v: T) returns (r: Outcome<Error>)
      requires queue.Valid() && Valid()
      modifies queue
      ensures queue.Valid() && Valid() && queue.addrs == old(queue.addrs)
      ensures old(pos) == |old(queue.contents)| ==> r == Fail(EndCursorDereference) && unchanged(queue)
      ensures old(pos) < |old(queue.contents)| ==> r == Pass && queue.contents == old(queue.contents)[pos := v]
    {
      if current.None? {
        return Fail(EndCursorDereference);
      }
      queue.StoreAt(current.value, v, pos);
      r := Pass;
    }

    /** `++it`: step to the next element; at the end it stays at the end. */
    method Increment()
      requires queue.Valid() && Valid()
      modifies this
      ensures Valid() && pos == if old(pos) < |queue.contents| then old(pos) + 1 else old(pos)
    {
      if current.Some? {
        current := queue.nodes[current.value].next;
        pos := pos + 1;
      }
    }

    /** `it++`: a copy at the old position, with this iterator stepped on. */
    method PostIncrement() returns (prev: Iterator<T>)
      requires queue.Valid() && Valid()
      modifies this
      ensures fresh(prev) && prev.Valid() && prev.queue == queue && prev.pos == old(pos)
      ensures Valid() && pos == if old(pos) < |queue.contents| then old(pos) + 1 else old(pos)
    {
      prev := new Iterator(queue, current, pos);
      Increment();
    }

    /**
     * `==`: two iterators over the same queue are equal exactly when they are
     * at the same position; over two queues of one arena, which share no
     * node, only when both are at the end (both `nullptr`).
     */
    function Equals(other: Iterator<T>): (b: bool)
      reads this, other, queue, queue.arena, other.queue, other.queue.arena
      ensures queue.Valid() && Valid() && other.Valid() && other.queue == queue ==> (b <==> pos == other.pos)
      ensures && queue.Valid() && other.queue.Valid() && Valid() && other.Valid()
              && other.queue != queue && other.queue.arena == queue.arena
              && queue.SharesNoNode(other.queue)
              ==> (b <==> pos == |queue.contents| && other.pos == |other.queue.contents|)
    {
      NextOfDisjoint(queue.addrs, other.queue.addrs, pos, other.pos);
      current == other.current
    }

    /** `!=`: the negation of `==`. */
    function NotEquals(other: Iterator<T>): (b: bool)
      reads this, other, queue, queue.arena, other.queue, other.queue.arena
      ensures queue.Valid() && Valid() && other.Valid() && other.queue == queue ==> (b <==> pos != other.pos)
      ensures && queue.Valid() && other.queue.Valid() && Valid() && other.Valid()
              && other.queue != queue && other.queue.arena == queue.arena
              && queue.SharesNoNode(other.queue)
              ==> (b <==> pos < |queue.contents| || other.pos < |other.queue.contents|)
    {
      NextOfDisjoint(queue.addrs, other.queue.addrs, pos, other.pos);
      current != other.current
    }
  }

  /**
   * A caller's range-for loop: from `begin()`, dereference and step with
   * prefix `++` until the iterator equals `end()`.  It visits the elements in
   * FIFO order.
   */
  method Collect<T>(q: Queue<T>) returns (visited: seq<T>)
    requires q.Valid()
    ensures visited == q.contents
  {
    var it := q.Begin();
    var e := q.End();
    visited := [];
    while it.NotEquals(e)
      invariant it.queue == q && e.queue == q && it.Valid() && e.Valid() && e.pos == |q.contents|
      invariant visited == q.contents[..it.pos]
      decreases |q.contents| - it.pos
    {
      visited := VisitOne(it, visited);
    }
  }

  /** One round of the range-for loop: take `*it`, then `++it`. */
  method VisitOne<T>(it: Iterator<T>, visited: seq<T>) returns (visited1: seq<T>)
    requires it.queue.Valid() && it.Valid() && it.pos < |it.queue.contents| && visited == it.queue.contents[..it.pos]
    modifies it
    ensures it.Valid() && it.pos == old(it.pos) + 1 && visited1 == it.queue.contents[..it.pos]
  {
    var x := it.Deref();
    assert it.queue.contents[..it.pos + 1] == it.queue.contents[..it.pos] + [it.queue.contents[it.pos]];
    visited1 := visited + [x.value];
    it.Increment();
  }
}
