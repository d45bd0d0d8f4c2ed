/**
 * The fixed-block arena as the object the program mutates in place.
 * `Allocate`, `Deallocate` and `FindFreeBlock` are proved to change the
 * fields exactly as the corresponding function of ArenaSpec says, so the
 * lemmas there apply to them; the constructors, `MoveAssign` and `Cleanup`
 * state the new fields directly, and the observers only read them.
 *
 * The pool itself is not modelled byte by byte: `hasPool` records whether the
 * arena still owns its block, and regions are offsets into it.
 */
module MemoryResource {
  import opened Wrappers
  import ArenaSpec

  class FixedMemoryResource {
    /** Whether the pool block is still owned (`memory_pool_ != nullptr`). */
    var hasPool: bool
    var poolSize: nat
    var currentOffset: nat
    var allocatedBlocks: map<nat, nat>
    var freeBlocks: seq<ArenaSpec.FreeEntry>

    /** The bookkeeping of this arena as a value. */
    function State(): ArenaSpec.State
      reads this
    {
      ArenaSpec.State(poolSize, currentOffset, allocatedBlocks, freeBlocks)
    }

    ghost predicate Valid()
      reads this
    {
      ArenaSpec.Valid(State())
    }

    ghost predicate Tidy()
      reads this
    {
      ArenaSpec.Tidy(State())
    }

    /** A new arena owns a block of `size` bytes, has not used any of it and tracks no region. */
    constructor (size: nat)
      ensures Valid() && Tidy() && hasPool
      ensures State() == ArenaSpec.Fresh(size)
    {
      hasPool := true;
      poolSize := size;
      currentOffset := 0;
      allocatedBlocks := map[];
      freeBlocks := [];
    }

    /** The arena built with the default argument: a block of one mebibyte. */
    constructor Default()
      ensures Valid() && Tidy() && hasPool
      ensures State() == ArenaSpec.Fresh(1024 * 1024)
    {
      hasPool := true;
      poolSize := ArenaSpec.DefaultPoolSize;
      currentOffset := 0;
      allocatedBlocks := map[];
      freeBlocks := [];
    }

    /**
     * Move construction: the new arena takes the block, the capacity, the
     * cursor and both tables; the source is left with no block, capacity 0,
     * cursor 0 and empty tables.
     */
    constructor Move(other: FixedMemoryResource)
      modifies other
      ensures State() == old(other.State()) && hasPool == old(other.hasPool)
      ensures other.State() == ArenaSpec.Fresh(0) && !other.hasPool
      ensures old(other.Valid()) ==> Valid()
      ensures old(other.Tidy()) ==> Tidy()
    {
      hasPool := other.hasPool;
      poolSize := other.poolSize;
      currentOffset := other.currentOffset;
      allocatedBlocks := other.allocatedBlocks;
      freeBlocks := other.freeBlocks;
      new;
      other.hasPool := false;
      other.poolSize := 0;
      other.currentOffset := 0;
      other.allocatedBlocks := map[];
      other.freeBlocks := [];
    }

    /**
     * Move assignment: unless both are the same object, release this arena's
     * own block, then take everything from `other` and reset `other` as move
     * construction does.
     */
    method MoveAssign(other: FixedMemoryResource)
      modifies this, other
      ensures other == this ==> unchanged(this)
      ensures other != this ==>
                && State() == old(other.State()) && hasPool == old(other.hasPool)
                && other.State() == ArenaSpec.Fresh(0) && !other.hasPool
      ensures other != this && old(other.Valid()) ==> Valid()
    {
      if this != other {
        var _ := Cleanup();
        hasPool := other.hasPool;
        poolSize := other.poolSize;
        currentOffset := other.currentOffset;
        allocatedBlocks := other.allocatedBlocks;
        freeBlocks := other.freeBlocks;
        other.hasPool := false;
        other.poolSize := 0;
        other.currentOffset := 0;
        other.allocatedBlocks := map[];
        other.freeBlocks := [];
      }
    }

    /**
     * Release the block if it is still owned; `leaked` is the number of
     * occupied regions the diagnostic reports (0 when there is none).  The
     * tables and the cursor are left as they are, so a second call changes
     * nothing.
     */
    method Cleanup() returns (leaked: nat)
      modifies this`hasPool
      ensures !hasPool
      ensures leaked == if old(hasPool) then |allocatedBlocks| else 0
      ensures !old(hasPool) ==> unchanged(this)
    {
      leaked := 0;
      if hasPool {
        if |allocatedBlocks| > 0 {
          leaked := |allocatedBlocks|;
        }
        hasPool := false;
      }
    }

    /** Number of occupied regions (`get_allocated_count`). */
    function AllocatedCount(): (n: nat)
      reads this
      ensures n == |State().occupied|
    {
      |allocatedBlocks|
    }

    /** Number of entries in the free table, equal sizes counted separately (`get_free_count`). */
    function FreeCount(): (n: nat)
      reads this
      ensures n == |State().free|
    {
      |freeBlocks|
    }

    /** The cursor: how far into the block regions have ever been carved (`get_current_offset`). */
    function CurrentOffset(): (n: nat)
      reads this
      ensures n == State().cursor
    {
      currentOffset
    }

    /** Two arenas are equal only when they are the same object. */
    predicate IsEqual(other: FixedMemoryResource)
      ensures IsEqual(other) <==> this == other
    {
      this == other
    }

    /**
     * `find_free_block`: scan the free table from the first entry of at least
     * `bytes` (the sizes ascend, so every later one is large enough too) and
     * take the first whose offset is a multiple of `alignment`, removing it.
     */
    method FindFreeBlock(bytes: nat, alignment: nat) returns (p: Option<nat>)
      requires alignment > 0 && ArenaSpec.SortedBySize(freeBlocks)
      modifies this`freeBlocks
      ensures match ArenaSpec.FirstFit(old(freeBlocks), bytes, alignment)
              case None => p == None && freeBlocks == old(freeBlocks)
              case Some(k) => p == Some(old(freeBlocks)[k].addr) && freeBlocks == ArenaSpec.RemoveAt(old(freeBlocks), k)
    {
      var i := ArenaSpec.LowerBound(freeBlocks, bytes);
      while i < |freeBlocks|
        invariant i <= |freeBlocks| && freeBlocks == old(freeBlocks)
        invariant forall j :: i <= j < |freeBlocks| ==> freeBlocks[j].size >= bytes
        invariant forall j :: 0 <= j < i ==> !ArenaSpec.Fits(freeBlocks[j], bytes, alignment)
      {
        var e := freeBlocks[i];
        if e.addr % alignment == 0 {
          ArenaSpec.FirstFitIs(freeBlocks, bytes, alignment, i);
          freeBlocks := ArenaSpec.RemoveAt(freeBlocks, i);
          return Some(e.addr);
        }
        i := i + 1;
      }
      return None;
    }

    /**
     * `do_allocate`: the new state and the returned offset (or OutOfMemory)
     * are exactly those of `ArenaSpec.Allocate`.
     */
    method Allocate(bytes: nat, alignment: nat) returns (r: Result<nat, Error>)
      requires Valid() && alignment > 0
      modifies this
      ensures Valid() && hasPool == old(hasPool)
      ensures State() == ArenaSpec.Allocate(old(State()), bytes, alignment).state
      ensures r == ArenaSpec.Allocate(old(State()), bytes, alignment).result
    {
      ArenaSpec.AllocatePreservesValid(State(), bytes, alignment);
      var p := FindFreeBlock(bytes, alignment);
      if p.Some? {
        allocatedBlocks := allocatedBlocks[p.value := bytes];
        return Success(p.value);
      }
      var alignedOffset := ArenaSpec.AlignUp(currentOffset, alignment);
      if alignedOffset + bytes > poolSize {
        return Failure(OutOfMemory);
      }
      allocatedBlocks := allocatedBlocks[alignedOffset := bytes];
      currentOffset := alignedOffset + bytes;
      return Success(alignedOffset);
    }

    /**
     * `do_deallocate`: the new state and the outcome (Pass or UnknownBlock)
     * are exactly those of `ArenaSpec.Release`; the alignment is ignored.
     */
    method Deallocate(p: nat, bytes: nat, alignment: nat) returns (r: Outcome<Error>)
      requires Valid()
      modifies this
      ensures Valid() && hasPool == old(hasPool)
      ensures State() == ArenaSpec.Release(old(State()), p, bytes).state
      ensures r == ArenaSpec.Release(old(State()), p, bytes).result
    {
      if p !in allocatedBlocks {
        return Fail(UnknownBlock);
      }
      ArenaSpec.ReleaseKnown(State(), p, bytes);
      allocatedBlocks := allocatedBlocks - {p};
      freeBlocks := ArenaSpec.InsertFree(freeBlocks, ArenaSpec.FreeEntry(bytes, p));
      return Pass;
    }
  }
}
