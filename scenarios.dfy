/**
 * Whole-program situations from the repository's tests, written as methods
 * whose postconditions are what the tests check, and the move-assignment
 * situation that the tests do not cover.
 *
 * `Queue<int>` nodes are 16 bytes at alignment 8: a 4-byte `int` padded up
 * to the 8-byte `next` link of a 64-bit target.
 */
module QueueScenarios {
  import opened Wrappers
  import ArenaSpec
  import opened MemoryResource
  import opened LinkedQueue

  const IntNodeSize: nat := 16
  const IntNodeAlign: nat := 8

  /** What `allocate` uses when the caller names no alignment: `alignof(std::max_align_t)` of a 64-bit target. */
  const MaxAlign: nat := 16

  /** One allocation of 100 bytes on a 4096-byte arena, then its release: counts 1, then 0 occupied and 1 free. */
  method ArenaAllocateRelease() returns (p: Result<nat, Error>, occupiedAfterAllocate: nat,
                                          occupiedAfterRelease: nat, freeAfterRelease: nat, r: Outcome<Error>)
    ensures p == Success(0) && r == Pass
    ensures occupiedAfterAllocate == 1 && occupiedAfterRelease == 0 && freeAfterRelease == 1
  {
    var memory := new FixedMemoryResource(4096);
    ArenaSpec.FreshAllocate(4096, 100, MaxAlign);
    p := memory.Allocate(100, MaxAlign);
    occupiedAfterAllocate := memory.AllocatedCount();
    r := memory.Deallocate(p.value, 100, MaxAlign);
    occupiedAfterRelease := memory.AllocatedCount();
    freeAfterRelease := memory.FreeCount();
  }

  /** Allocate 100 bytes, release them, allocate 100 again: the same offset, and the same cursor after each. */
  method ArenaMemoryReuse() returns (p1: Result<nat, Error>, p2: Result<nat, Error>, offset1: nat, offset2: nat)
    ensures p1.Success? && p1 == p2 && offset1 == offset2
  {
    var memory := new FixedMemoryResource(4096);
    ArenaSpec.FreshAllocate(4096, 100, MaxAlign);
    ArenaSpec.AllocateReleaseAllocate(memory.State(), 100, MaxAlign);
    p1 := memory.Allocate(100, MaxAlign);
    offset1 := memory.CurrentOffset();
    var _ := memory.Deallocate(p1.value, 100, MaxAlign);
    p2 := memory.Allocate(100, MaxAlign);
    offset2 := memory.CurrentOffset();
  }

  /** 5000 bytes do not fit a 4096-byte arena: OutOfMemory, and the arena is still fresh. */
  method ArenaOutOfMemory() returns (r: Result<nat, Error>, occupied: nat, offset: nat)
    ensures r == Failure(OutOfMemory) && occupied == 0 && offset == 0
  {
    var memory := new FixedMemoryResource(4096);
    ArenaSpec.FreshAllocate(4096, 5000, MaxAlign);
    r := memory.Allocate(5000, MaxAlign);
    occupied := memory.AllocatedCount();
    offset := memory.CurrentOffset();
  }

  /** Releasing an offset the arena never handed out fails with UnknownBlock and changes no count. */
  method ArenaUnknownRelease(stranger: nat) returns (r: Outcome<Error>, occupied: nat, free: nat)
    ensures r == Fail(UnknownBlock) && occupied == 0 && free == 0
  {
    var memory := new FixedMemoryResource(4096);
    r := memory.Deallocate(stranger, 100, MaxAlign);
    occupied := memory.AllocatedCount();
    free := memory.FreeCount();
  }

  /** A move carries the occupied region to the new arena, which can then release it; the source counts none. */
  method ArenaMoveKeepsCount() returns (movedCount: nat, sourceCount: nat, r: Outcome<Error>)
    ensures movedCount == 1 && sourceCount == 0 && r == Pass
  {
    var memory := new FixedMemoryResource(4096);
    ArenaSpec.FreshAllocate(4096, 100, MaxAlign);
    var p := memory.Allocate(100, MaxAlign);
    var moved := new FixedMemoryResource.Move(memory);
    movedCount := moved.AllocatedCount();
    sourceCount := memory.AllocatedCount();
    r := moved.Deallocate(p.value, 100, MaxAlign);
  }

  /**
   * A 1024-byte arena: five pushes, three pops, three more pushes.  The
   * cursor after the last push equals the cursor after the first five,
   * because the three new nodes go into the three released regions; the
   * queue then holds 3, 4, 10, 11, 12 in that order.
   */
  method CyclicPushPop() returns (offsetAfterFirstBatch: nat, offsetAfterReuse: nat, remaining: seq<int>)
    ensures offsetAfterFirstBatch == offsetAfterReuse == 5 * IntNodeSize
    ensures remaining == [3, 4, 10, 11, 12]
  {
    var memory := new FixedMemoryResource(1024);
    var queue := new Queue<int>(memory, IntNodeSize, IntNodeAlign);
    PushFirstBatch(queue);
    offsetAfterFirstBatch := memory.CurrentOffset();
    PopThree(queue);
    PushReuse(queue);
    offsetAfterReuse := memory.CurrentOffset();
    remaining := Collect(queue);
  }

  /** Pushes 0 to 4 onto an empty queue of `int` nodes in a fresh 1024-byte arena: all carved, none freed. */
  method PushFirstBatch(queue: Queue<int>)
    requires queue.Valid() && queue.contents == [] && queue.nodeSize == 16 && queue.nodeAlign == 8
    requires queue.arena.State() == ArenaSpec.Fresh(1024)
    modifies queue, queue.arena
    ensures queue.Valid() && queue.contents == [0, 1, 2, 3, 4]
    ensures queue.arena.currentOffset == 80 && queue.arena.freeBlocks == []
  {
    PushAllCarving(queue, [0, 1, 2, 3, 4]);
  }

  /** One push on an arena with no free entry and room for an aligned node at the cursor: the node is carved. */
  method PushCarving(queue: Queue<int>, v: int)
    requires queue.Valid() && queue.nodeSize == 16 && queue.nodeAlign == 8 && queue.arena.freeBlocks == []
    requires queue.arena.currentOffset % 8 == 0 && queue.arena.currentOffset + 16 <= queue.arena.poolSize
    modifies queue, queue.arena
    ensures queue.Valid() && queue.contents == old(queue.contents) + [v] && queue.arena.freeBlocks == []
    ensures queue.arena.currentOffset == old(queue.arena.currentOffset) + 16
    ensures queue.arena.poolSize == old(queue.arena.poolSize)
  {
    ArenaSpec.AlignUpOfMultiple(queue.arena.currentOffset, 8);
    var r := queue.Push(v);
  }

  /** Three pops release three node regions, each able to serve a later node, and leave the cursor alone. */
  method PopThree(queue: Queue<int>)
    requires queue.Valid() && queue.contents == [0, 1, 2, 3, 4] && queue.nodeSize == 16 && queue.nodeAlign == 8
    requires queue.arena.currentOffset == 80 && queue.arena.freeBlocks == []
    modifies queue, queue.arena
    ensures queue.Valid() && queue.contents == [3, 4]
    ensures queue.arena.currentOffset == 80 && ArenaSpec.CountFits(queue.arena.freeBlocks, 16, 8) == 3
  {
    var k := 0;
    while k < 3
      invariant 0 <= k <= 3 && queue.Valid() && queue.contents == [0, 1, 2, 3, 4][k..]
      invariant queue.arena.currentOffset == 80 && ArenaSpec.CountFits(queue.arena.freeBlocks, 16, 8) == k
    {
      ArenaSpec.ReleaseAddsFit(queue.arena.State(), queue.addrs[0], 16, 16, 8);
      var r := queue.Pop();
      k := k + 1;
    }
  }

  /** Pushes 10 to 12 while three serving regions are free: each one is reused, so the cursor stays. */
  method PushReuse(queue: Queue<int>)
    requires queue.Valid() && queue.contents == [3, 4] && queue.nodeSize == 16 && queue.nodeAlign == 8
    requires queue.arena.currentOffset == 80 && ArenaSpec.CountFits(queue.arena.freeBlocks, 16, 8) == 3
    modifies queue, queue.arena
    ensures queue.Valid() && queue.contents == [3, 4, 10, 11, 12] && queue.arena.currentOffset == 80
  {
    var n := 10;
    while n < 13
      invariant 10 <= n <= 13 && queue.Valid() && queue.contents == [3, 4] + seq(n - 10, j => j + 10)
      invariant queue.arena.currentOffset == 80 && ArenaSpec.CountFits(queue.arena.freeBlocks, 16, 8) == 13 - n
    {
      PushIntoFreed(queue, n);
      assert seq(n + 1 - 10, j => j + 10) == seq(n - 10, j => j + 10) + [n];
      n := n + 1;
    }
    assert seq(3, j => j + 10) == [10, 11, 12];
  }

  /** One push while a released region can serve the node: it succeeds without moving the cursor. */
  method PushIntoFreed(queue: Queue<int>, v: int)
    requires queue.Valid() && ArenaSpec.CountFits(queue.arena.freeBlocks, queue.nodeSize, queue.nodeAlign) > 0
    modifies queue, queue.arena
    ensures queue.Valid() && queue.contents == old(queue.contents) + [v]
    ensures queue.arena.currentOffset == old(queue.arena.currentOffset)
    ensures ArenaSpec.CountFits(queue.arena.freeBlocks, queue.nodeSize, queue.nodeAlign)
            == old(ArenaSpec.CountFits(queue.arena.freeBlocks, queue.nodeSize, queue.nodeAlign)) - 1
  {
    ArenaSpec.AllocateWithFitReuses(queue.arena.State(), queue.nodeSize, queue.nodeAlign);
    var r := queue.Push(v);
  }

  /**
   * A range loop that writes `*it * 2` through each iterator: every element
   * is doubled in place, in the same nodes.
   */
  method DoubleAll(q: Queue<int>)
    requires q.Valid()
    modifies q
    ensures q.Valid() && q.addrs == old(q.addrs) && |q.contents| == |old(q.contents)|
    ensures forall i :: 0 <= i < |q.contents| ==> q.contents[i] == 2 * old(q.contents)[i]
  {
    var it := q.Begin();
    var e := q.End();
    while it.NotEquals(e)
      invariant it.queue == q && e.queue == q && q.Valid() && it.Valid() && e.Valid() && e.pos == |q.contents|
      invariant q.addrs == old(q.addrs) && |q.contents| == |old(q.contents)|
      invariant forall i :: 0 <= i < it.pos ==> q.contents[i] == 2 * old(q.contents)[i]
      invariant forall i :: it.pos <= i < |q.contents| ==> q.contents[i] == old(q.contents)[i]
      decreases |q.contents| - it.pos
    {
      DoubleOne(it);
      assert e.Valid();
    }
  }

  /** `*it *= 2; ++it` on an iterator before the end. */
  method DoubleOne(it: Iterator<int>)
    requires it.queue.Valid() && it.Valid() && it.pos < |it.queue.contents|
    modifies it, it.queue
    ensures it.queue.Valid() && it.Valid() && it.pos == old(it.pos) + 1
    ensures it.queue.addrs == old(it.queue.addrs)
    ensures it.queue.contents == old(it.queue.contents)[old(it.pos) := 2 * old(it.queue.contents)[old(it.pos)]]
  {
    var x := it.Deref();
    var _ := it.Store(2 * x.value);
    it.Increment();
  }

  /** Push 10, 20, 30, double through the iterator, then pop: the fronts are 20, 40 and 60. */
  method IteratorModification() returns (front1: Result<int, Error>, front2: Result<int, Error>, front3: Result<int, Error>)
    ensures front1 == Success(20) && front2 == Success(40) && front3 == Success(60)
  {
    var q := ThreeElements(10, 20, 30);
    DoubleAll(q);
    assert q.contents == [20, 40, 60] by {
      assert q.contents[0] == 20 && q.contents[1] == 40 && q.contents[2] == 60;
    }
    front1, front2, front3 := FrontsWhilePopping(q);
  }

  /** A queue of `int` on a fresh 4096-byte arena after pushing `x`, `y` and `z`. */
  method ThreeElements(x: int, y: int, z: int) returns (q: Queue<int>)
    ensures fresh(q) && fresh(q.arena) && q.Valid() && q.contents == [x, y, z]
    ensures q.nodeSize == IntNodeSize && q.nodeAlign == IntNodeAlign
    ensures q.arena.poolSize == 4096 && q.arena.currentOffset == 3 * IntNodeSize
  {
    var memory := new FixedMemoryResource(4096);
    q := new Queue<int>(memory, IntNodeSize, IntNodeAlign);
    PushAllCarving(q, [x, y, z]);
  }

  /** Push each of `vs` in order while the arena carves every node at its cursor. */
  method PushAllCarving(q: Queue<int>, vs: seq<int>)
    requires q.Valid() && q.nodeSize == 16 && q.nodeAlign == 8 && q.arena.freeBlocks == []
    requires q.arena.currentOffset % 8 == 0 && q.arena.currentOffset + 16 * |vs| <= q.arena.poolSize
    modifies q, q.arena
    ensures q.Valid() && q.contents == old(q.contents) + vs && q.arena.freeBlocks == []
    ensures q.arena.poolSize == old(q.arena.poolSize) && q.arena.currentOffset == old(q.arena.currentOffset) + 16 * |vs|
  {
    var i := 0;
    while i < |vs|
      invariant 0 <= i <= |vs| && q.Valid() && q.contents == old(q.contents) + vs[..i] && q.arena.freeBlocks == []
      invariant q.arena.poolSize == old(q.arena.poolSize) && q.arena.currentOffset == old(q.arena.currentOffset) + 16 * i
    {
      PushCarving(q, vs[i]);
      assert vs[..i + 1] == vs[..i] + [vs[i]];
      i := i + 1;
    }
    assert vs[..i] == vs;
  }

  /** `front()`, `pop()`, `front()`, `pop()`, `front()` on a queue of at least three elements. */
  method FrontsWhilePopping<T>(q: Queue<T>) returns (front1: Result<T, Error>, front2: Result<T, Error>, front3: Result<T, Error>)
    requires q.Valid() && |q.contents| >= 3
    modifies q, q.arena
    ensures front1 == Success(old(q.contents)[0]) && front2 == Success(old(q.contents)[1])
    ensures front3 == Success(old(q.contents)[2])
  {
    front1 := q.Front();
    var _ := q.Pop();
    front2 := q.Front();
    var _ := q.Pop();
    front3 := q.Front();
  }

  /**
   * The copy-constructor test: copying a three-element queue on a 4096-byte
   * arena succeeds and gives the same elements in new nodes; popping the copy
   * then leaves the original as it was, and a valid queue of the arena.
   */
  method CopyIsIndependent() returns (original: Queue<int>, copied: Queue<int>, r: Outcome<Error>)
    ensures r == Pass && original.Valid() && copied.Valid()
    ensures original.contents == [10, 20, 30] && copied.contents == [20, 30]
  {
    original := ThreeElements(10, 20, 30);
    ArenaSpec.AllocateManyRoom(original.arena.State(), 3, IntNodeSize, IntNodeAlign);
    copied, r := Queue.Copy(original);
    assert r == Pass;
    PopBeside(copied, original);
  }

  /**
   * The copy-assignment test: a queue on the 4096-byte arena holding 10 and
   * 20 is assigned to an empty queue on the same arena; the assignment
   * succeeds, and both hold the same elements in nodes of their own.
   */
  method CopyAssignment() returns (original: Queue<int>, target: Queue<int>, r: Outcome<Error>)
    ensures r == Pass && original.Valid() && target.Valid() && target.arena == original.arena
    ensures original.contents == [10, 20] && target.contents == [10, 20] && target.SharesNoNode(original)
  {
    original, target := TwoAndEmpty();
    assert ArenaSpec.ReleaseAll(target.arena.State(), target.addrs, IntNodeSize) == target.arena.State();
    ArenaSpec.AllocateManyRoom(target.arena.State(), 2, IntNodeSize, IntNodeAlign);
    r := target.CopyAssign(original);
    assert r == Pass;
  }

  /** The set-up of the copy-assignment test: a queue holding 10 and 20, and an empty queue, on one fresh 4096-byte arena. */
  method TwoAndEmpty() returns (original: Queue<int>, target: Queue<int>)
    ensures fresh(original) && fresh(target) && fresh(original.arena) && original.Valid() && target.Valid() && target.arena == original.arena
    ensures target.nodeSize == original.nodeSize == IntNodeSize && target.nodeAlign == original.nodeAlign == IntNodeAlign
    ensures original.contents == [10, 20] && target.contents == []
    ensures original.arena.currentOffset == 2 * IntNodeSize && original.arena.poolSize == 4096
  {
    var memory := new FixedMemoryResource(4096);
    original := new Queue<int>(memory, IntNodeSize, IntNodeAlign);
    PushAllCarving(original, [10, 20]);
    target := new Queue<int>(memory, IntNodeSize, IntNodeAlign);
  }

  /** Copying a queue leaves every other valid queue on the same arena valid: a copy only adds regions. */
  method CopyBeside<T>(original: Queue<T>, third: Queue<T>) returns (copied: Queue<T>, r: Outcome<Error>)
    requires original.Valid() && third.Valid() && third.arena == original.arena
    modifies original.arena
    ensures original.Valid() && third.Valid() && third.contents == old(third.contents)
    ensures r == Pass ==> copied.contents == original.contents
  {
    ghost var occ0 := third.arena.allocatedBlocks;
    copied, r := Queue.Copy(original);
    PlacedGrow(third.addrs, occ0, third.arena.allocatedBlocks, third.nodeAlign);
  }

  /** Popping a queue leaves a queue on the same arena with no node in common valid. */
  method PopBeside<T>(q: Queue<T>, other: Queue<T>)
    requires q.Valid() && other.Valid() && q != other && q.arena == other.arena && q.SharesNoNode(other)
    requires q.contents != []
    modifies q, q.arena
    ensures q.Valid() && other.Valid() && q.contents == old(q.contents)[1..]
  {
    ghost var occ0, first := q.arena.allocatedBlocks, q.addrs[..1];
    var popped := q.Pop();
    PlacedShrink(other.addrs, occ0, other.arena.allocatedBlocks, other.nodeAlign, first);
  }

  /**
   * Move assignment between queues on two different arenas, as the program
   * writes it: the destination ends holding a node that its own arena never
   * handed out, so it is no longer a valid queue of its arena, and the
   * release its `pop` would make is rejected by its arena with UnknownBlock.
   */
  method MoveAcrossArenasAsWritten() returns (destination: Queue<int>)
    ensures destination.contents == [7] && destination.owner != destination.arena && !destination.Valid()
    ensures destination.addrs != []
    ensures ArenaSpec.Release(destination.arena.State(), destination.addrs[0], destination.nodeSize).result == Fail(UnknownBlock)
  {
    var source;
    destination, source := TwoArenas();
    destination.MoveAssignAsWritten(source);
  }

  /**
   * The same situation with the corrected move assignment: both queues stay
   * valid, the destination still draws from its own arena, and the copy into
   * its fresh arena succeeds: the destination holds the element and the
   * source is empty.
   */
  method MoveAcrossArenas() returns (destination: Queue<int>, source: Queue<int>, r: Outcome<Error>)
    ensures destination.Valid() && source.Valid() && destination.arena != source.arena
    ensures r == Pass && destination.contents == [7] && source.contents == []
  {
    destination, source := TwoArenas();
    assert ArenaSpec.ReleaseAll(destination.arena.State(), destination.addrs, IntNodeSize) == destination.arena.State();
    ArenaSpec.AllocateManyRoom(destination.arena.State(), 1, IntNodeSize, IntNodeAlign);
    r := destination.MoveAssign(source);
    assert r == Pass;
  }

  /**
   * The set-up of both move-assignment situations: an empty queue on a fresh
   * 1024-byte arena, and a queue on another fresh 1024-byte arena holding 7.
   */
  method TwoArenas() returns (destination: Queue<int>, source: Queue<int>)
    ensures fresh(destination) && fresh(source) && fresh(destination.arena) && fresh(source.arena)
    ensures destination.Valid() && source.Valid() && destination.arena != source.arena
    ensures destination.nodeSize == source.nodeSize == IntNodeSize && destination.nodeAlign == source.nodeAlign == IntNodeAlign
    ensures destination.contents == [] && destination.arena.State() == ArenaSpec.Fresh(1024)
    ensures source.contents == [7]
  {
    var home := new FixedMemoryResource(1024);
    var away := new FixedMemoryResource(1024);
    destination := new Queue<int>(home, IntNodeSize, IntNodeAlign);
    source := new Queue<int>(away, IntNodeSize, IntNodeAlign);
    ArenaSpec.AlignUpOfMultiple(0, 8);
    var pushed := source.Push(7);
  }
}
