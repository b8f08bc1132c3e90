/**
 The pool form of lib::ResourceMemory<T,N>: N fixed slots of `sizeof(T)` bytes
 and N "is allocated" flags. `allocate` hands out the lowest free slot,
 `free` clears the flag of the slot whose address it is given, and both run
 inside a lib::Guard over the pool's api::Guard.
 */
module ResourceMemory {
  import opened Api
  import opened Slots
  import Guard

  /** A pointer handed to or returned by the pool: null, or an address. */
  datatype Ptr = Null | Addr(address: nat)

  /** One pool: its layout, the NonCopyable construction flag, and
      `isAllocated_`. */
  datatype Pool = Pool(layout: Layout, constructed: bool, isAllocated: seq<bool>)

  /** There is one flag per slot. */
  predicate Valid(p: Pool)
  {
    |p.isAllocated| == p.layout.count
  }

  /** Result of `allocate`: the pointer, the pool after the call, and what the
      call did to the pool's api::Guard. */
  datatype AllocOutcome = AllocOutcome(ptr: Ptr, pool: Pool, events: seq<Event>)

  /** Result of `free`: the pool after the call and what the call did to the
      pool's api::Guard. */
  datatype FreeOutcome = FreeOutcome(pool: Pool, events: seq<Event>)

  /** Constructor with its `construct()`. `prior` stands for whatever
      `isAllocated_` held before; it is overwritten with all-free only when
      the NonCopyable base reports constructed, and left alone otherwise. */
  function Construct(layout: Layout, parentConstructed: bool, prior: seq<bool>): (p: Pool)
    requires |prior| == layout.count
    ensures Valid(p) && p.layout == layout
    ensures p.constructed == parentConstructed
    ensures parentConstructed ==> forall i :: 0 <= i < |p.isAllocated| ==> !p.isAllocated[i]
    ensures !parentConstructed ==> p.isAllocated == prior
  {
    if !parentConstructed then
      Pool(layout, false, prior)
    else
      Pool(layout, true, seq(layout.count, _ => false))
  }

  /** `allocate(size, _)` (its second argument is unused by the source). A
      size other than `sizeof(T)` gives null; otherwise the lowest free slot is
      taken, unless its address fails the 8-byte alignment check
      (`address & 0x7`, which is `address % 8` for an unsigned address); a
      full pool gives null. Only the chosen slot's flag changes. The pool's
      construction flag is not consulted, and the body runs whether or not
      the Guard obtained the lock. */
  function Allocate(p: Pool, size: nat, scope: Guard.Scope): (o: AllocOutcome)
    requires Valid(p)
    ensures Valid(o.pool) && o.pool.layout == p.layout && o.pool.constructed == p.constructed
    ensures o.events == Guard.Events(scope)
    ensures size != p.layout.elemSize ==> o.ptr == Null && o.pool == p
    ensures (forall j :: 0 <= j < |p.isAllocated| ==> p.isAllocated[j]) ==> o.ptr == Null && o.pool == p
    ensures forall i: nat :: size == p.layout.elemSize && IsLowestFree(p.isAllocated, i) ==>
              if SlotAddress(p.layout, i) % 8 == 0 then
                o.ptr == Addr(SlotAddress(p.layout, i)) && o.pool.isAllocated == p.isAllocated[i := true]
              else
                o.ptr == Null && o.pool == p
  {
    var events := Guard.Events(scope);
    if size != p.layout.elemSize then
      AllocOutcome(Null, p, events)
    else
      match FirstFree(p.isAllocated)
      case None => AllocOutcome(Null, p, events)
      case Some(i) =>
        var address := SlotAddress(p.layout, i);
        assert forall j: nat :: IsLowestFree(p.isAllocated, j) ==> j == i by {
          forall j: nat | IsLowestFree(p.isAllocated, j)
            ensures j == i
          {
            LowestFreeUnique(p.isAllocated, i, j);
          }
        }
        if address % 8 != 0 then
          AllocOutcome(Null, p, events)
        else
          AllocOutcome(Addr(address), p.(isAllocated := p.isAllocated[i := true]), events)
  }

  /** `free(ptr)`: the slots are scanned for one whose address equals `ptr`
      and that slot's flag is cleared; a null or foreign pointer changes
      nothing. Which slot matches is exactly what the layout arithmetic says. */
  function Free(p: Pool, ptr: Ptr, scope: Guard.Scope): (o: FreeOutcome)
    requires Valid(p)
    ensures Valid(o.pool) && o.pool.layout == p.layout && o.pool.constructed == p.constructed
    ensures o.events == Guard.Events(scope)
    ensures ptr.Addr? && SlotOf(p.layout, ptr.address).Some? ==>
              o.pool.isAllocated == p.isAllocated[SlotOf(p.layout, ptr.address).value := false]
    ensures ptr.Null? || SlotOf(p.layout, ptr.address).None? ==> o.pool == p
  {
    var events := Guard.Events(scope);
    if ptr.Null? then
      FreeOutcome(p, events)
    else
      ScanFindsSlotOf(p.layout, ptr.address);
      match FindSlot(p.layout, ptr.address, 0)
      case None => FreeOutcome(p, events)
      case Some(i) => FreeOutcome(p.(isAllocated := p.isAllocated[i := false]), events)
  }

  /** Every address `allocate` returns is one of the N slot addresses, 8-byte
      aligned, of a slot that was free and is taken afterwards. */
  lemma AllocateReturnsFreeSlot(p: Pool, size: nat, scope: Guard.Scope)
    requires Valid(p)
    ensures var o := Allocate(p, size, scope);
            o.ptr.Addr? ==>
              && o.ptr.address % 8 == 0
              && SlotOf(p.layout, o.ptr.address).Some?
              && !p.isAllocated[SlotOf(p.layout, o.ptr.address).value]
              && o.pool.isAllocated[SlotOf(p.layout, o.ptr.address).value]
  {
    var o := Allocate(p, size, scope);
    if o.ptr.Addr? {
      var i := FirstFree(p.isAllocated).value;
      SlotOfSlotAddress(p.layout, i);
    }
  }

  /** Freeing slot `i` by its address clears flag `i` and no other. */
  lemma FreeSlot(p: Pool, i: nat, scope: Guard.Scope)
    requires Valid(p) && i < p.layout.count
    ensures !Free(p, Addr(SlotAddress(p.layout, i)), scope).pool.isAllocated[i]
    ensures forall j :: 0 <= j < p.layout.count && j != i ==>
              Free(p, Addr(SlotAddress(p.layout, i)), scope).pool.isAllocated[j] == p.isAllocated[j]
  {
    SlotOfSlotAddress(p.layout, i);
  }

  /** Freeing the same pointer twice leaves the pool as freeing it once. */
  lemma FreeIdempotent(p: Pool, ptr: Ptr, first: Guard.Scope, second: Guard.Scope)
    requires Valid(p)
    ensures Free(Free(p, ptr, first).pool, ptr, second).pool == Free(p, ptr, first).pool
  {
  }

  /** Freeing an address that is no slot's changes nothing. */
  lemma FreeForeignIsNoOp(p: Pool, address: nat, scope: Guard.Scope)
    requires Valid(p)
    requires forall i :: 0 <= i < p.layout.count ==> SlotAddress(p.layout, i) != address
    ensures Free(p, Addr(address), scope).pool == p
  {
  }

  /** Freeing what `allocate` just returned restores the pool. */
  lemma AllocateThenFree(p: Pool, first: Guard.Scope, second: Guard.Scope)
    requires Valid(p)
    ensures var o := Allocate(p, p.layout.elemSize, first);
            o.ptr.Addr? ==> Free(o.pool, o.ptr, second).pool == p
  {
    var o := Allocate(p, p.layout.elemSize, first);
    if o.ptr.Addr? {
      var i := FirstFree(p.isAllocated).value;
      SlotOfSlotAddress(p.layout, i);
      assert p.isAllocated[i := true][i := false] == p.isAllocated;
    }
  }

  /** With an 8-aligned `memory_`, once every slot below `i` is taken,
      freeing slot `i` and allocating again returns slot `i`. */
  lemma FreeThenAllocateReuses(p: Pool, i: nat, first: Guard.Scope, second: Guard.Scope)
    requires Valid(p) && p.layout.base % 8 == 0
    requires i < p.layout.count
    requires forall j :: 0 <= j < i ==> p.isAllocated[j]
    ensures Allocate(Free(p, Addr(SlotAddress(p.layout, i)), first).pool, p.layout.elemSize, second).ptr
            == Addr(SlotAddress(p.layout, i))
  {
    var freed := Free(p, Addr(SlotAddress(p.layout, i)), first).pool;
    FreeSlot(p, i, first);
    assert IsLowestFree(freed.isAllocated, i);
    SlotAligned(p.layout, i);
  }

  /** Successive `allocate(sizeof(T))` calls, one per Guard scope given. */
  function AllocateMany(p: Pool, scopes: seq<Guard.Scope>): (r: (seq<Ptr>, Pool))
    requires Valid(p)
    ensures |r.0| == |scopes| && Valid(r.1) && r.1.layout == p.layout
    decreases |scopes|
  {
    if scopes == [] then ([], p)
    else
      var o := Allocate(p, p.layout.elemSize, scopes[0]);
      var rest := AllocateMany(o.pool, scopes[1..]);
      ([o.ptr] + rest.0, rest.1)
  }

  /** Exactly the first `k` slots are taken. */
  predicate FirstTaken(p: Pool, k: nat)
    requires Valid(p)
  {
    forall j :: 0 <= j < p.layout.count ==> (p.isAllocated[j] <==> j < k)
  }

  /** One allocation from a pool whose first `k` slots are taken takes
      slot `k`, or gives null when `k` is N. */
  lemma AllocateNext(p: Pool, k: nat, scope: Guard.Scope)
    requires Valid(p) && p.layout.base % 8 == 0
    requires k <= p.layout.count && FirstTaken(p, k)
    ensures var o := Allocate(p, p.layout.elemSize, scope);
            if k < p.layout.count then
              o.ptr == Addr(SlotAddress(p.layout, k)) && Valid(o.pool) && FirstTaken(o.pool, k + 1)
            else
              o.ptr == Null && o.pool == p
  {
    if k < p.layout.count {
      assert IsLowestFree(p.isAllocated, k);
      SlotAligned(p.layout, k);
    }
  }

  /** From a pool whose first `k` slots are taken, allocation continues with
      slot `k`, `k + 1`, ... and gives null once the pool is full. */
  lemma {:induction false} AllocateManyFrom(p: Pool, k: nat, scopes: seq<Guard.Scope>)
    requires Valid(p) && p.layout.base % 8 == 0
    requires k <= p.layout.count && FirstTaken(p, k)
    ensures forall j :: 0 <= j < |scopes| ==>
              AllocateMany(p, scopes).0[j] ==
                if k + j < p.layout.count then Addr(SlotAddress(p.layout, k + j)) else Null
    decreases |scopes|
  {
    if scopes != [] {
      var o := Allocate(p, p.layout.elemSize, scopes[0]);
      AllocateNext(p, k, scopes[0]);
      var k' := if k < p.layout.count then k + 1 else k;
      AllocateManyFrom(o.pool, k', scopes[1..]);
      var r := AllocateMany(p, scopes);
      var rest := AllocateMany(o.pool, scopes[1..]);
      assert r.0 == [o.ptr] + rest.0;
      forall j | 0 <= j < |scopes|
        ensures r.0[j] == if k + j < p.layout.count then Addr(SlotAddress(p.layout, k + j)) else Null
      {
        if j > 0 {
          assert r.0[j] == rest.0[j - 1];
        }
      }
    }
  }

  /** A freshly constructed pool over an 8-aligned `memory_` hands out its N
      slots in index order at N pairwise-distinct addresses, and the call
      after that returns null. */
  lemma FreshPoolHandsOutEverySlot(layout: Layout, prior: seq<bool>, scopes: seq<Guard.Scope>)
    requires |prior| == layout.count && layout.base % 8 == 0
    requires |scopes| == layout.count + 1
    ensures var ptrs := AllocateMany(Construct(layout, true, prior), scopes).0;
            && (forall j :: 0 <= j < layout.count ==> ptrs[j] == Addr(SlotAddress(layout, j)))
            && (forall i, j :: 0 <= i < j < layout.count ==> ptrs[i] != ptrs[j])
            && ptrs[layout.count] == Null
  {
    var p := Construct(layout, true, prior);
    AllocateManyFrom(p, 0, scopes);
    var ptrs := AllocateMany(p, scopes).0;
    forall i, j | 0 <= i < j < layout.count
      ensures ptrs[i] != ptrs[j]
    {
      SlotAddressInjective(layout, i, j);
    }
  }
}
