/**
 * The bookkeeping of the fixed-block arena as a value: capacity, bump cursor,
 * occupied table and free table, and the allocation and release steps as
 * functions over it.  The class in fixed_memory_resource.dfy is proved to
 * follow these functions; the lemmas here state what they guarantee.
 *
 * Addresses are offsets into the pool (the pool starts at offset 0), so
 * "the address is aligned" and "the offset is a multiple of the alignment"
 * are the same statement.
 */
module ArenaSpec {
  import opened Wrappers

  /** Capacity of an arena built without an explicit size (one mebibyte). */
  const DefaultPoolSize: nat := 1024 * 1024

  /** A released region waiting for reuse: the size given at release and its offset. */
  datatype FreeEntry = FreeEntry(size: nat, addr: nat)

  /**
   * `occupied` maps each occupied offset to its recorded size (unique keys);
   * `free` is the size-keyed multimap of released regions, kept as a sequence
   * in ascending size with equal sizes in insertion order.
   */
  datatype State = State(capacity: nat, cursor: nat, occupied: map<nat, nat>, free: seq<FreeEntry>)

  /** The state after an operation, paired with what the operation returned. */
  datatype Step<+R> = Step(state: State, result: R)

  function Fresh(capacity: nat): State {
    State(capacity, 0, map[], [])
  }

  ghost predicate SortedBySize(free: seq<FreeEntry>) {
    forall i, j :: 0 <= i < j < |free| ==> free[i].size <= free[j].size
  }

  /** What every reachable state satisfies. */
  ghost predicate Valid(s: State) {
    s.cursor <= s.capacity && SortedBySize(s.free)
  }

  /**
   * No offset is both occupied and free, no offset is free twice, and every
   * known offset lies below the cursor.  Allocations of a positive number of
   * bytes and all releases keep this; allocations of zero bytes need not.
   */
  ghost predicate Tidy(s: State) {
    && (forall a :: a in s.occupied ==> a < s.cursor)
    && (forall i :: 0 <= i < |s.free| ==> s.free[i].addr < s.cursor && s.free[i].addr !in s.occupied)
    && (forall i, j :: 0 <= i < j < |s.free| ==> s.free[i].addr != s.free[j].addr)
  }

  lemma {:induction false} ProductAtLeast(d: int, a: int)
    requires d >= 1 && a > 0
    ensures d * a >= a
  {
    if d > 1 {
      ProductAtLeast(d - 1, a);
      assert d * a == (d - 1) * a + a;
    }
  }

  /** Euclidean division is unique: a quotient and remainder in range are the ones `/` and `%` give. */
  lemma DivModUnique(n: int, a: int, q: int, r: int)
    requires a > 0 && 0 <= r < a && n == q * a + r
    ensures n / a == q && n % a == r
  {
    var q', r' := n / a, n % a;
    assert n == q' * a + r';
    if q' != q {
      var lo, hi := if q' < q then q' else q, if q' < q then q else q';
      assert hi * a - lo * a == (hi - lo) * a;
      ProductAtLeast(hi - lo, a);
    }
  }

  /** `n` rounded up to the nearest multiple of `alignment` (the program's `(n + a - 1) / a * a`). */
  function AlignUp(n: nat, alignment: nat): (r: nat)
    requires alignment > 0
    ensures r % alignment == 0
    ensures n <= r < n + alignment
  {
    var m := n + alignment - 1;
    var q := m / alignment;
    assert q * alignment + m % alignment == m;
    DivModUnique(q * alignment, alignment, q, 0);
    q * alignment
  }

  /** An offset that is already a multiple of the alignment is not moved. */
  lemma AlignUpOfMultiple(n: nat, alignment: nat)
    requires alignment > 0 && n % alignment == 0
    ensures AlignUp(n, alignment) == n
  {
    var q := n / alignment;
    assert n == q * alignment;
    DivModUnique(n + alignment - 1, alignment, q, alignment - 1);
  }

  /** A free entry can serve a request: large enough, and aligned. */
  predicate Fits(e: FreeEntry, bytes: nat, alignment: nat)
    requires alignment > 0
  {
    e.size >= bytes && e.addr % alignment == 0
  }

  /** The index of the first free entry, in table order, that can serve the request. */
  function FirstFit(free: seq<FreeEntry>, bytes: nat, alignment: nat): (r: Option<nat>)
    requires alignment > 0
    ensures r.Some? ==> r.value < |free| && Fits(free[r.value], bytes, alignment)
    ensures r.Some? ==> forall j :: 0 <= j < r.value ==> !Fits(free[j], bytes, alignment)
    ensures r.None? <==> forall j :: 0 <= j < |free| ==> !Fits(free[j], bytes, alignment)
  {
    if free == [] then None
    else if Fits(free[0], bytes, alignment) then Some(0)
    else match FirstFit(free[1..], bytes, alignment)
      case None => None
      case Some(k) => Some(k + 1)
  }

  /** The first index whose entry is at least `bytes` large (`multimap::lower_bound`). */
  function LowerBound(free: seq<FreeEntry>, bytes: nat): (k: nat)
    ensures k <= |free|
    ensures forall j :: 0 <= j < k ==> free[j].size < bytes
    ensures SortedBySize(free) ==> forall j :: k <= j < |free| ==> free[j].size >= bytes
  {
    if free == [] || free[0].size >= bytes then 0 else 1 + LowerBound(free[1..], bytes)
  }

  /** The first index whose entry is larger than `bytes` (`multimap::upper_bound`). */
  function UpperBound(free: seq<FreeEntry>, bytes: nat): (k: nat)
    ensures k <= |free|
    ensures forall j :: 0 <= j < k ==> free[j].size <= bytes
    ensures SortedBySize(free) ==> forall j :: k <= j < |free| ==> free[j].size > bytes
  {
    if free == [] || free[0].size > bytes then 0 else 1 + UpperBound(free[1..], bytes)
  }

  /** `multimap::erase` of one entry: the table without its `k`-th entry, the others in order. */
  function RemoveAt(free: seq<FreeEntry>, k: nat): (r: seq<FreeEntry>)
    requires k < |free|
    ensures |r| == |free| - 1
    ensures forall j :: 0 <= j < k ==> r[j] == free[j]
    ensures forall j :: k <= j < |r| ==> r[j] == free[j + 1]
  {
    free[..k] + free[k + 1..]
  }

  /**
   * `multimap::insert`: an entry goes after every entry of the same or a
   * smaller size, so among equal sizes the oldest comes first.
   */
  function InsertFree(free: seq<FreeEntry>, e: FreeEntry): (r: seq<FreeEntry>)
    ensures |r| == |free| + 1 && e in r
  {
    var k := UpperBound(free, e.size);
    assert (free[..k] + [e] + free[k..])[k] == e;
    free[..k] + [e] + free[k..]
  }

  /**
   * `do_allocate`: reuse the first fitting free entry, recording the requested
   * size; otherwise carve `bytes` at the cursor rounded up to `alignment`, or
   * fail with OutOfMemory, leaving the state as it was.
   */
  function Allocate(s: State, bytes: nat, alignment: nat): (r: Step<Result<nat, Error>>)
    requires alignment > 0
    ensures r.state.capacity == s.capacity && s.cursor <= r.state.cursor
    ensures r.result.Failure? ==> r.result.error == OutOfMemory && r.state == s
    ensures r.result.Success? ==>
              && r.result.value % alignment == 0
              && r.state.occupied == s.occupied[r.result.value := bytes]
  {
    match FirstFit(s.free, bytes, alignment)
    case Some(k) =>
      var p := s.free[k].addr;
      Step(s.(occupied := s.occupied[p := bytes], free := RemoveAt(s.free, k)), Success(p))
    case None =>
      var aligned := AlignUp(s.cursor, alignment);
      if aligned + bytes > s.capacity then Step(s, Failure(OutOfMemory))
      else Step(s.(cursor := aligned + bytes, occupied := s.occupied[aligned := bytes]), Success(aligned))
  }

  /**
   * `do_deallocate`: an offset that is not occupied is rejected with
   * UnknownBlock; otherwise it leaves the occupied table and enters the free
   * table with the size the caller states.
   */
  function Release(s: State, addr: nat, bytes: nat): (r: Step<Outcome<Error>>)
    ensures r.result == Pass <==> addr in s.occupied
    ensures r.result.Fail? ==> r.result.error == UnknownBlock && r.state == s
    ensures r.state.capacity == s.capacity && r.state.cursor == s.cursor
    ensures forall a :: a in r.state.occupied <==> a in s.occupied && a != addr
  {
    if addr !in s.occupied then Step(s, Fail(UnknownBlock))
    else Step(s.(occupied := s.occupied - {addr}, free := InsertFree(s.free, FreeEntry(bytes, addr))), Pass)
  }

  // ---------------------------------------------------------------------
  // Free-table facts

  lemma FirstFitIs(free: seq<FreeEntry>, bytes: nat, alignment: nat, k: nat)
    requires alignment > 0 && k < |free| && Fits(free[k], bytes, alignment)
    requires forall j :: 0 <= j < k ==> !Fits(free[j], bytes, alignment)
    ensures FirstFit(free, bytes, alignment) == Some(k)
  {
  }

  lemma RemoveAtSorted(free: seq<FreeEntry>, k: nat)
    requires k < |free| && SortedBySize(free)
    ensures SortedBySize(RemoveAt(free, k))
  {
    var r := RemoveAt(free, k);
    forall i, j | 0 <= i < j < |r| ensures r[i].size <= r[j].size {
      var i' := if i < k then i else i + 1;
      var j' := if j < k then j else j + 1;
      assert r[i] == free[i'] && r[j] == free[j'];
    }
  }

  /** Where each entry of the table ends up when `e` is inserted. */
  lemma InsertFreeIndex(free: seq<FreeEntry>, e: FreeEntry)
    ensures var r := InsertFree(free, e); var k := UpperBound(free, e.size);
            && |r| == |free| + 1 && r[k] == e
            && (forall i :: 0 <= i < k ==> r[i] == free[i])
            && (forall i :: k < i < |r| ==> r[i] == free[i - 1])
  {
  }

  /**
   * Inserting into the free table keeps it in ascending size and places the
   * new entry after every entry whose size is not larger and before every
   * larger one.
   */
  lemma InsertFreeSorted(free: seq<FreeEntry>, e: FreeEntry)
    requires SortedBySize(free)
    ensures var r := InsertFree(free, e); var k := UpperBound(free, e.size);
            && SortedBySize(r)
            && (forall j :: 0 <= j < k ==> r[j].size <= e.size)
            && (forall j :: k < j < |r| ==> r[j].size > e.size)
  {
    var r := InsertFree(free, e);
    var k := UpperBound(free, e.size);
    InsertFreeIndex(free, e);
    forall i, j | 0 <= i < j < |r| ensures r[i].size <= r[j].size {
      if j < k {
        assert r[i] == free[i] && r[j] == free[j];
      } else if j == k {
        assert r[i] == free[i];
      } else if i < k {
        assert r[i] == free[i] && r[j] == free[j - 1];
      } else if i == k {
        assert r[j] == free[j - 1];
      } else {
        assert r[i] == free[i - 1] && r[j] == free[j - 1];
      }
    }
  }

  /** Insertion adds exactly the one entry, and removing it again gives the old table back. */
  lemma InsertFreeContents(free: seq<FreeEntry>, e: FreeEntry)
    ensures var r := InsertFree(free, e); var k := UpperBound(free, e.size);
            && |r| == |free| + 1
            && multiset(r) == multiset(free) + multiset{e}
            && k < |r| && r[k] == e
            && RemoveAt(r, k) == free
  {
    var k := UpperBound(free, e.size);
    assert free == free[..k] + free[k..];
    Splice(free[..k], e, free[k..]);
  }

  /** Putting `x` between `a` and `b` adds it to the multiset, and cutting it out again gives `a + b`. */
  lemma Splice<X>(a: seq<X>, x: X, b: seq<X>)
    ensures var r := a + [x] + b;
            && multiset(r) == multiset(a + b) + multiset{x}
            && r[..|a|] + r[|a| + 1..] == a + b
  {
    var r := a + [x] + b;
    assert r[..|a|] == a && r[|a| + 1..] == b;
  }

  // ---------------------------------------------------------------------
  // Allocation

  /**
   * On a fresh arena the first allocation carves offset 0 when the request
   * fits the capacity, leaving one occupied region and the cursor at
   * `bytes`; a larger request fails with OutOfMemory.
   */
  lemma FreshAllocate(capacity: nat, bytes: nat, alignment: nat)
    requires alignment > 0
    ensures var step := Allocate(Fresh(capacity), bytes, alignment);
            && (bytes <= capacity ==>
                  step.result == Success(0) && |step.state.occupied| == 1 && step.state.cursor == bytes
                  && step.state.free == [])
            && (bytes > capacity ==> step.result == Failure(OutOfMemory) && step.state == Fresh(capacity))
  {
    AlignUpOfMultiple(0, alignment);
    assert map[][0 := bytes].Keys == {0};
  }

  /** A fresh carve: the rounded-up cursor, aligned, with the cursor moved past it. */
  lemma AllocateCarves(s: State, bytes: nat, alignment: nat)
    requires alignment > 0 && FirstFit(s.free, bytes, alignment).None?
    requires AlignUp(s.cursor, alignment) + bytes <= s.capacity
    ensures var aligned := AlignUp(s.cursor, alignment);
            var step := Allocate(s, bytes, alignment);
            && step.result == Success(aligned)
            && aligned % alignment == 0
            && s.cursor <= aligned < s.cursor + alignment
            && step.state == s.(cursor := aligned + bytes, occupied := s.occupied[aligned := bytes])
            && s.cursor <= step.state.cursor <= s.capacity
  {
  }

  /**
   * Allocation fails exactly when no free entry fits and the rounded-up
   * cursor leaves too little room; a failed allocation changes nothing.
   */
  lemma AllocateOutOfMemory(s: State, bytes: nat, alignment: nat)
    requires alignment > 0
    ensures var step := Allocate(s, bytes, alignment);
            && (step.result.Failure? <==>
                  FirstFit(s.free, bytes, alignment).None? && AlignUp(s.cursor, alignment) + bytes > s.capacity)
            && (step.result.Failure? ==> step.result.error == OutOfMemory && step.state == s)
  {
  }

  /**
   * Reuse takes the first entry in (size, insertion) order that is large
   * enough and aligned, removes exactly that entry, records the requested
   * size for it and leaves the cursor alone.
   */
  lemma AllocateReuses(s: State, bytes: nat, alignment: nat, k: nat)
    requires alignment > 0 && FirstFit(s.free, bytes, alignment) == Some(k)
    ensures var step := Allocate(s, bytes, alignment); var p := s.free[k].addr;
            && s.free[k].size >= bytes && p % alignment == 0
            && (forall j :: 0 <= j < k ==> !Fits(s.free[j], bytes, alignment))
            && step.result == Success(p)
            && step.state.free == RemoveAt(s.free, k)
            && |step.state.free| == |s.free| - 1
            && step.state.occupied == s.occupied[p := bytes]
            && step.state.cursor == s.cursor && step.state.capacity == s.capacity
  {
  }

  /** Allocation keeps the state valid and never moves the cursor back. */
  lemma AllocatePreservesValid(s: State, bytes: nat, alignment: nat)
    requires alignment > 0 && Valid(s)
    ensures var t := Allocate(s, bytes, alignment).state;
            Valid(t) && t.capacity == s.capacity && s.cursor <= t.cursor
  {
    match FirstFit(s.free, bytes, alignment)
    case Some(k) => RemoveAtSorted(s.free, k);
    case None =>
  }

  /**
   * In a tidy state an allocation of a positive size hands out an aligned
   * offset that is not occupied, adds exactly that key to the occupied table
   * and keeps the state tidy.
   */
  lemma AllocateTidy(s: State, bytes: nat, alignment: nat)
    requires alignment > 0 && Valid(s) && Tidy(s) && bytes > 0
    requires Allocate(s, bytes, alignment).result.Success?
    ensures var step := Allocate(s, bytes, alignment); var p := step.result.value;
            && p !in s.occupied
            && p % alignment == 0
            && step.state.occupied.Keys == s.occupied.Keys + {p}
            && Tidy(step.state)
  {
    var step := Allocate(s, bytes, alignment);
    var t := step.state;
    match FirstFit(s.free, bytes, alignment)
    case Some(k) =>
      var r := RemoveAt(s.free, k);
      forall i | 0 <= i < |r|
        ensures r[i].addr < t.cursor && r[i].addr !in t.occupied
      {
        var i' := if i < k then i else i + 1;
        assert r[i] == s.free[i'];
      }
      forall i, j | 0 <= i < j < |r| ensures r[i].addr != r[j].addr {
        var i' := if i < k then i else i + 1;
        var j' := if j < k then j else j + 1;
        assert r[i] == s.free[i'] && r[j] == s.free[j'];
      }
    case None =>
  }

  // ---------------------------------------------------------------------
  // Release

  /** Releasing an offset that is not occupied fails with UnknownBlock and changes nothing. */
  lemma ReleaseUnknown(s: State, addr: nat, bytes: nat)
    requires addr !in s.occupied
    ensures Release(s, addr, bytes) == Step(s, Fail(UnknownBlock))
  {
  }

  /**
   * Releasing an occupied offset moves it from the occupied table to the free
   * table under the caller's size: one occupied entry fewer, one free entry
   * more, the cursor untouched, the free table still in size order.
   */
  lemma ReleaseKnown(s: State, addr: nat, bytes: nat)
    requires addr in s.occupied && Valid(s)
    ensures var t := Release(s, addr, bytes).state;
            && Release(s, addr, bytes).result == Pass
            && t.occupied == s.occupied - {addr}
            && |t.occupied| == |s.occupied| - 1
            && |t.free| == |s.free| + 1
            && multiset(t.free) == multiset(s.free) + multiset{FreeEntry(bytes, addr)}
            && t.cursor == s.cursor && t.capacity == s.capacity
            && Valid(t)
  {
    var e := FreeEntry(bytes, addr);
    var t := Release(s, addr, bytes).state;
    assert t == s.(occupied := s.occupied - {addr}, free := InsertFree(s.free, e));
    InsertFreeSorted(s.free, e);
    InsertFreeContents(s.free, e);
    var rest := (s.occupied - {addr}).Keys;
    assert s.occupied.Keys == rest + {addr} && addr !in rest;
    assert |s.occupied.Keys| == |rest| + 1;
  }

  /** Releases keep a tidy state tidy. */
  lemma ReleaseTidy(s: State, addr: nat, bytes: nat)
    requires Valid(s) && Tidy(s)
    ensures Tidy(Release(s, addr, bytes).state)
  {
    if addr in s.occupied {
      var e := FreeEntry(bytes, addr);
      var t := Release(s, addr, bytes).state;
      var k := UpperBound(s.free, bytes);
      InsertFreeIndex(s.free, e);
      forall i | 0 <= i < |t.free|
        ensures t.free[i].addr < t.cursor && t.free[i].addr !in t.occupied
      {
        if i != k {
          var i' := if i < k then i else i - 1;
          assert t.free[i] == s.free[i'];
        }
      }
      forall i, j | 0 <= i < j < |t.free| ensures t.free[i].addr != t.free[j].addr {
        var i' := if i < k then i else i - 1;
        var j' := if j < k then j else j - 1;
        if i != k && j != k {
          assert t.free[i] == s.free[i'] && t.free[j] == s.free[j'];
        } else if i == k {
          assert t.free[j] == s.free[j'];
        } else {
          assert t.free[i] == s.free[i'];
        }
      }
    }
  }

  /**
   * An aligned entry inserted into a table where nothing served its own size
   * is the first fit for that size, and taking it out restores the table.
   */
  lemma ReinsertedFits(free: seq<FreeEntry>, e: FreeEntry, alignment: nat)
    requires alignment > 0 && e.addr % alignment == 0
    requires FirstFit(free, e.size, alignment).None?
    ensures var k := UpperBound(free, e.size);
            && FirstFit(InsertFree(free, e), e.size, alignment) == Some(k)
            && RemoveAt(InsertFree(free, e), k) == free
  {
    var k := UpperBound(free, e.size);
    InsertFreeContents(free, e);
    InsertFreeIndex(free, e);
    FirstFitIs(InsertFree(free, e), e.size, alignment, k);
  }

  /**
   * Allocate `bytes` when no free entry fits, release it with the same size,
   * and allocate `bytes` again with the same alignment: the second allocation
   * returns the same offset and leaves exactly the state the first one left,
   * cursor included.
   */
  lemma AllocateReleaseAllocate(s: State, bytes: nat, alignment: nat)
    requires alignment > 0 && Valid(s)
    requires FirstFit(s.free, bytes, alignment).None?
    requires Allocate(s, bytes, alignment).result.Success?
    ensures var first := Allocate(s, bytes, alignment);
            var back := Release(first.state, first.result.value, bytes);
            && back.result == Pass
            && Allocate(back.state, bytes, alignment) == first
  {
    var first := Allocate(s, bytes, alignment);
    var p := first.result.value;
    var s1 := first.state;
    var e := FreeEntry(bytes, p);
    assert s1 == s.(cursor := s1.cursor, occupied := s.occupied[p := bytes]);
    var back := Release(s1, p, bytes);
    assert back.state == s1.(occupied := s1.occupied - {p}, free := InsertFree(s.free, e));
    ReinsertedFits(s.free, e, alignment);
    InsertFreeIndex(s.free, e);
    var k := UpperBound(s.free, e.size);
    assert (s1.occupied - {p})[p := bytes] == s1.occupied;
    assert Allocate(back.state, bytes, alignment)
           == Step(back.state.(occupied := s1.occupied, free := RemoveAt(InsertFree(s.free, e), k)), Success(p));
  }

  // ---------------------------------------------------------------------
  // Reuse keeps the cursor where it is

  /** The number of free entries that can serve a request of `bytes` at `alignment`. */
  function CountFits(free: seq<FreeEntry>, bytes: nat, alignment: nat): nat
    requires alignment > 0
  {
    if free == [] then 0
    else (if Fits(free[0], bytes, alignment) then 1 else 0) + CountFits(free[1..], bytes, alignment)
  }

  lemma {:induction false} CountFitsAppend(a: seq<FreeEntry>, b: seq<FreeEntry>, bytes: nat, alignment: nat)
    requires alignment > 0
    ensures CountFits(a + b, bytes, alignment) == CountFits(a, bytes, alignment) + CountFits(b, bytes, alignment)
  {
    if a != [] {
      assert (a + b)[0] == a[0] && (a + b)[1..] == a[1..] + b;
      CountFitsAppend(a[1..], b, bytes, alignment);
    } else {
      assert a + b == b;
    }
  }

  lemma {:induction false} CountFitsNone(free: seq<FreeEntry>, bytes: nat, alignment: nat)
    requires alignment > 0
    ensures FirstFit(free, bytes, alignment).None? <==> CountFits(free, bytes, alignment) == 0
  {
    if free != [] {
      CountFitsNone(free[1..], bytes, alignment);
      if !Fits(free[0], bytes, alignment) && FirstFit(free[1..], bytes, alignment).Some? {
        var k := FirstFit(free[1..], bytes, alignment).value;
        assert Fits(free[k + 1], bytes, alignment);
      }
    }
  }

  lemma CountFitsRemoveAt(free: seq<FreeEntry>, k: nat, bytes: nat, alignment: nat)
    requires alignment > 0 && k < |free| && Fits(free[k], bytes, alignment)
    ensures CountFits(RemoveAt(free, k), bytes, alignment) + 1 == CountFits(free, bytes, alignment)
  {
    assert free == free[..k] + [free[k]] + free[k + 1..];
    CountFitsAppend(free[..k] + [free[k]], free[k + 1..], bytes, alignment);
    CountFitsAppend(free[..k], [free[k]], bytes, alignment);
    CountFitsAppend(free[..k], free[k + 1..], bytes, alignment);
  }

  /**
   * Releasing an occupied, aligned offset with a size that serves the request
   * adds one free entry that can serve it.
   */
  lemma ReleaseAddsFit(s: State, addr: nat, bytes: nat, size: nat, alignment: nat)
    requires alignment > 0 && Valid(s) && addr in s.occupied
    requires addr % alignment == 0 && size >= bytes
    ensures CountFits(Release(s, addr, size).state.free, bytes, alignment) == CountFits(s.free, bytes, alignment) + 1
  {
    var e := FreeEntry(size, addr);
    var k := UpperBound(s.free, size);
    assert s.free == s.free[..k] + s.free[k..];
    CountFitsAppend(s.free[..k], s.free[k..], bytes, alignment);
    CountFitsAppend(s.free[..k] + [e], s.free[k..], bytes, alignment);
    CountFitsAppend(s.free[..k], [e], bytes, alignment);
  }

  /**
   * While some free entry can serve the request, allocation succeeds by reuse:
   * the cursor stays put and one serving entry is used up.
   */
  lemma AllocateWithFitReuses(s: State, bytes: nat, alignment: nat)
    requires alignment > 0 && CountFits(s.free, bytes, alignment) > 0
    ensures var step := Allocate(s, bytes, alignment);
            && step.result.Success?
            && step.state.cursor == s.cursor
            && CountFits(step.state.free, bytes, alignment) + 1 == CountFits(s.free, bytes, alignment)
  {
    CountFitsNone(s.free, bytes, alignment);
    var k := FirstFit(s.free, bytes, alignment).value;
    CountFitsRemoveAt(s.free, k, bytes, alignment);
  }

  /** Release each offset of `addrs` in turn, each with size `bytes`. */
  function ReleaseAll(s: State, addrs: seq<nat>, bytes: nat): (r: State)
    decreases addrs
    ensures r.capacity == s.capacity && r.cursor == s.cursor
  {
    if addrs == [] then s else ReleaseAll(Release(s, addrs[0], bytes).state, addrs[1..], bytes)
  }

  /** Allocate `count` regions of `bytes` at `alignment` in turn. */
  function AllocateMany(s: State, count: nat, bytes: nat, alignment: nat): (r: State)
    requires alignment > 0
    decreases count
    ensures r.capacity == s.capacity && s.cursor <= r.cursor
  {
    if count == 0 then s else AllocateMany(Allocate(s, bytes, alignment).state, count - 1, bytes, alignment)
  }

  /**
   * From an aligned cursor, with a node size that keeps it aligned, each of
   * `count` requests advances the cursor by at most one node.
   */
  lemma {:induction false} AllocateManyBounded(s: State, count: nat, bytes: nat, alignment: nat)
    requires alignment > 0 && s.cursor % alignment == 0 && bytes % alignment == 0
    decreases count
    ensures var t := AllocateMany(s, count, bytes, alignment);
            t.cursor % alignment == 0 && t.cursor <= s.cursor + count * bytes
  {
    if count > 0 {
      var s1 := Allocate(s, bytes, alignment).state;
      AlignUpOfMultiple(s.cursor, alignment);
      if s1.cursor != s.cursor {
        assert s1.cursor == s.cursor + bytes;
        DivModUnique(s.cursor + bytes, alignment, s.cursor / alignment + bytes / alignment, 0);
      }
      AllocateManyBounded(s1, count - 1, bytes, alignment);
      assert s.cursor + count * bytes == s.cursor + bytes + (count - 1) * bytes;
    }
  }

  /**
   * Room for `count` nodes past an aligned cursor: none of the first `count`
   * requests fails, whatever the free table holds.
   */
  lemma AllocateManyRoom(s: State, count: nat, bytes: nat, alignment: nat)
    requires alignment > 0 && s.cursor % alignment == 0 && bytes % alignment == 0
    requires s.cursor + count * bytes <= s.capacity
    ensures forall k :: 0 <= k < count ==> Allocate(AllocateMany(s, k, bytes, alignment), bytes, alignment).result.Success?
  {
    forall k | 0 <= k < count
      ensures Allocate(AllocateMany(s, k, bytes, alignment), bytes, alignment).result.Success?
    {
      AllocateManyBounded(s, k, bytes, alignment);
      var t := AllocateMany(s, k, bytes, alignment);
      AlignUpOfMultiple(t.cursor, alignment);
      assert k * bytes + bytes <= count * bytes by {
        assert count * bytes == k * bytes + (count - k) * bytes;
        if bytes > 0 { ProductAtLeast(count - k, bytes); }
      }
    }
  }

  /** `count + 1` allocations are `count` allocations followed by one more. */
  lemma {:induction false} AllocateManyLast(s: State, count: nat, bytes: nat, alignment: nat)
    requires alignment > 0
    decreases count
    ensures AllocateMany(s, count + 1, bytes, alignment)
            == Allocate(AllocateMany(s, count, bytes, alignment), bytes, alignment).state
  {
    if count > 0 {
      AllocateManyLast(Allocate(s, bytes, alignment).state, count - 1, bytes, alignment);
    }
  }

  /**
   * A run of allocations only adds: every occupied offset stays occupied, the
   * capacity is kept, the cursor never goes back and the state stays valid.
   */
  lemma {:induction false} AllocateManyGrows(s: State, count: nat, bytes: nat, alignment: nat)
    requires alignment > 0 && Valid(s)
    decreases count
    ensures var t := AllocateMany(s, count, bytes, alignment);
            && Valid(t) && t.capacity == s.capacity && s.cursor <= t.cursor
            && (forall a :: a in s.occupied ==> a in t.occupied)
  {
    if count > 0 {
      AllocatePreservesValid(s, bytes, alignment);
      var s1 := Allocate(s, bytes, alignment).state;
      assert forall a :: a in s.occupied ==> a in s1.occupied;
      AllocateManyGrows(s1, count - 1, bytes, alignment);
    }
  }

  ghost predicate Distinct(addrs: seq<nat>) {
    forall i, j :: 0 <= i < j < |addrs| ==> addrs[i] != addrs[j]
  }

  /** The first step of `ReleaseAll`: what releasing the first offset does, and what it leaves for the rest. */
  lemma ReleaseFirst(s: State, addrs: seq<nat>, bytes: nat, alignment: nat)
    requires alignment > 0 && Valid(s) && Distinct(addrs) && addrs != []
    requires forall i :: 0 <= i < |addrs| ==> addrs[i] in s.occupied && addrs[i] % alignment == 0
    ensures var s1, rest := Release(s, addrs[0], bytes).state, addrs[1..];
            && Valid(s1) && s1.cursor == s.cursor && s1.capacity == s.capacity
            && s1.occupied == s.occupied - {addrs[0]} && |s1.occupied| == |s.occupied| - 1
            && CountFits(s1.free, bytes, alignment) == CountFits(s.free, bytes, alignment) + 1
            && Distinct(rest)
            && (forall i :: 0 <= i < |rest| ==> rest[i] in s1.occupied && rest[i] % alignment == 0)
  {
    ReleaseKnown(s, addrs[0], bytes);
    ReleaseAddsFit(s, addrs[0], bytes, bytes, alignment);
    var s1, rest := Release(s, addrs[0], bytes).state, addrs[1..];
    forall i | 0 <= i < |rest|
      ensures rest[i] in s1.occupied && rest[i] % alignment == 0
    {
      assert rest[i] == addrs[i + 1] && addrs[i + 1] != addrs[0];
    }
    forall i, j | 0 <= i < j < |rest|
      ensures rest[i] != rest[j]
    {
      assert rest[i] == addrs[i + 1] && rest[j] == addrs[j + 1];
    }
  }

  /**
   * Releasing distinct occupied aligned offsets one by one removes exactly
   * those from the occupied table and leaves the cursor where it was.
   */
  lemma {:induction false} ReleaseAllOccupied(s: State, addrs: seq<nat>, bytes: nat, alignment: nat)
    requires alignment > 0 && Valid(s) && Distinct(addrs)
    requires forall i :: 0 <= i < |addrs| ==> addrs[i] in s.occupied && addrs[i] % alignment == 0
    decreases addrs
    ensures var t := ReleaseAll(s, addrs, bytes);
            && Valid(t)
            && t.cursor == s.cursor && t.capacity == s.capacity
            && (forall a :: a in t.occupied <==> a in s.occupied && a !in addrs)
            && |t.occupied| == |s.occupied| - |addrs|
  {
    if addrs != [] {
      ReleaseFirst(s, addrs, bytes, alignment);
      var s1, rest := Release(s, addrs[0], bytes).state, addrs[1..];
      ReleaseAllOccupied(s1, rest, bytes, alignment);
      var t := ReleaseAll(s1, rest, bytes);
      assert ReleaseAll(s, addrs, bytes) == t;
      forall a
        ensures a in t.occupied <==> a in s.occupied && a !in addrs
      {
        assert addrs == [addrs[0]] + rest;
        assert a in addrs <==> a == addrs[0] || a in rest;
      }
    }
  }

  /** Each released offset adds one free entry that can serve `bytes` at `alignment`. */
  lemma {:induction false} ReleaseAllFits(s: State, addrs: seq<nat>, bytes: nat, alignment: nat)
    requires alignment > 0 && Valid(s) && Distinct(addrs)
    requires forall i :: 0 <= i < |addrs| ==> addrs[i] in s.occupied && addrs[i] % alignment == 0
    decreases addrs
    ensures CountFits(ReleaseAll(s, addrs, bytes).free, bytes, alignment) == CountFits(s.free, bytes, alignment) + |addrs|
  {
    if addrs != [] {
      ReleaseFirst(s, addrs, bytes, alignment);
      ReleaseAllFits(Release(s, addrs[0], bytes).state, addrs[1..], bytes, alignment);
    }
  }

  /** Both effects of releasing a list of node regions together. */
  lemma ReleaseAllEffect(s: State, addrs: seq<nat>, bytes: nat, alignment: nat)
    requires alignment > 0 && Valid(s) && Distinct(addrs)
    requires forall i :: 0 <= i < |addrs| ==> addrs[i] in s.occupied && addrs[i] % alignment == 0
    ensures var t := ReleaseAll(s, addrs, bytes);
            && Valid(t)
            && t.cursor == s.cursor && t.capacity == s.capacity
            && (forall a :: a in t.occupied <==> a in s.occupied && a !in addrs)
            && |t.occupied| == |s.occupied| - |addrs|
            && CountFits(t.free, bytes, alignment) == CountFits(s.free, bytes, alignment) + |addrs|
  {
    ReleaseAllOccupied(s, addrs, bytes, alignment);
    ReleaseAllFits(s, addrs, bytes, alignment);
  }

  /** Each allocation finds a serving free entry, so the cursor never moves. */
  lemma {:induction false} AllocateManyKeepsCursor(s: State, count: nat, bytes: nat, alignment: nat)
    requires alignment > 0 && count <= CountFits(s.free, bytes, alignment)
    decreases count
    ensures AllocateMany(s, count, bytes, alignment).cursor == s.cursor
  {
    if count > 0 {
      AllocateWithFitReuses(s, bytes, alignment);
      AllocateManyKeepsCursor(Allocate(s, bytes, alignment).state, count - 1, bytes, alignment);
    }
  }

  /**
   * Release `n` distinct occupied aligned regions of `bytes` and then allocate
   * `n` regions of `bytes` at the same alignment: every allocation is served
   * from the freed regions and the cursor ends where it started.
   */
  lemma ReuseCycleKeepsCursor(s: State, addrs: seq<nat>, bytes: nat, alignment: nat)
    requires alignment > 0 && Valid(s) && Distinct(addrs)
    requires forall i :: 0 <= i < |addrs| ==> addrs[i] in s.occupied && addrs[i] % alignment == 0
    ensures AllocateMany(ReleaseAll(s, addrs, bytes), |addrs|, bytes, alignment).cursor == s.cursor
  {
    ReleaseAllEffect(s, addrs, bytes, alignment);
    AllocateManyKeepsCursor(ReleaseAll(s, addrs, bytes), |addrs|, bytes, alignment);
  }
}
