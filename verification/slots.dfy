/**
 The storage of a pool-form ResourceMemory<T,N>: N rows of
 `(sizeof(T) >> 3) + 1` 64-bit words, one row per slot, and the two linear
 scans the pool performs over it. Addresses are unbounded naturals standing
 for `uintptr_t` values.
 */
module Slots {

  datatype Option<T> = None | Some(value: T)

  /** Where `memory_` starts, `sizeof(T)` in bytes, and the slot count N. */
  datatype Layout = Layout(base: nat, elemSize: nat, count: nat)

  /** Bytes from one row of `memory_` to the next. The row is a multiple of
      8 bytes long and always strictly longer than the element it holds, by
      at most 8 bytes. */
  function Stride(elemSize: nat): (stride: nat)
    ensures stride % 8 == 0
    ensures elemSize < stride <= elemSize + 8
  {
    var words := elemSize / 8 + 1;
    8 * words
  }

  /** Address of `memory_[i]`. */
  function SlotAddress(l: Layout, i: nat): nat
  {
    l.base + i * Stride(l.elemSize)
  }

  /** With an 8-aligned `memory_`, every slot is 8-aligned. */
  lemma SlotAligned(l: Layout, i: nat)
    requires l.base % 8 == 0
    ensures SlotAddress(l, i) % 8 == 0
  {
    var w := l.elemSize / 8 + 1;
    assert i * Stride(l.elemSize) == 8 * (i * w);
  }

  /** A positive multiple of `k` is at least `k`. */
  lemma {:induction false} MulAtLeast(a: nat, k: nat)
    requires a >= 1
    ensures a * k >= k
    decreases a
  {
    if a > 1 {
      MulAtLeast(a - 1, k);
      assert a * k == (a - 1) * k + k;
    }
  }

  /** `(i * k) / k == i`: multiplication by a positive stride is undone by
      division. */
  lemma MulDivCancel(i: nat, k: nat)
    requires k > 0
    ensures (i * k) / k == i && (i * k) % k == 0
  {
    var q, r := (i * k) / k, (i * k) % k;
    assert i * k == q * k + r && 0 <= r < k;
    if i > q {
      MulAtLeast(i - q, k);
    }
  }

  /** A later slot starts after the whole element of an earlier one: slots
      never overlap. */
  lemma SlotsDisjoint(l: Layout, i: nat, j: nat)
    requires i < j
    ensures SlotAddress(l, i) + l.elemSize < SlotAddress(l, j)
  {
    var k := Stride(l.elemSize);
    MulAtLeast(j - i, k);
    assert j * k == i * k + (j - i) * k;
  }

  /** Distinct slots have distinct addresses. */
  lemma SlotAddressInjective(l: Layout, i: nat, j: nat)
    ensures SlotAddress(l, i) == SlotAddress(l, j) <==> i == j
  {
    if i < j {
      SlotsDisjoint(l, i, j);
    } else if j < i {
      SlotsDisjoint(l, j, i);
    }
  }

  /** The slot an address belongs to, computed from the layout rather than by
      scanning: the address must lie a whole number of strides past `base`,
      fewer than N of them. */
  function SlotOf(l: Layout, address: nat): (r: Option<nat>)
    ensures r.Some? ==> r.value < l.count && SlotAddress(l, r.value) == address
    ensures r.None? ==> forall i :: 0 <= i < l.count ==> SlotAddress(l, i) != address
  {
    var k := Stride(l.elemSize);
    if address < l.base then
      None
    else
      var offset := address - l.base;
      if offset % k == 0 && offset / k < l.count then
        assert offset == (offset / k) * k;
        Some(offset / k)
      else
        assert forall i :: 0 <= i < l.count ==> SlotAddress(l, i) != address by {
          forall i | 0 <= i < l.count
            ensures SlotAddress(l, i) != address
          {
            MulDivCancel(i, k);
          }
        }
        None
  }

  /** Each slot's address is recognised as that slot. */
  lemma SlotOfSlotAddress(l: Layout, i: nat)
    requires i < l.count
    ensures SlotOf(l, SlotAddress(l, i)) == Some(i)
  {
    var r := SlotOf(l, SlotAddress(l, i));
    if r.Some? {
      SlotAddressInjective(l, r.value, i);
    }
  }

  /** The scan of `free()`: the first slot at or after `from` whose address
      equals `address`, or None when no remaining slot matches. */
  function FindSlot(l: Layout, address: nat, from: nat): (r: Option<nat>)
    requires from <= l.count
    ensures r.Some? ==> from <= r.value < l.count && SlotAddress(l, r.value) == address
    ensures r.None? ==> forall j :: from <= j < l.count ==> SlotAddress(l, j) != address
    decreases l.count - from
  {
    if from == l.count then None
    else if SlotAddress(l, from) == address then Some(from)
    else FindSlot(l, address, from + 1)
  }

  /** Scanning all slots finds exactly the slot the layout arithmetic names. */
  lemma ScanFindsSlotOf(l: Layout, address: nat)
    ensures FindSlot(l, address, 0) == SlotOf(l, address)
  {
    var scanned, computed := FindSlot(l, address, 0), SlotOf(l, address);
    if scanned.Some? && computed.Some? {
      SlotAddressInjective(l, scanned.value, computed.value);
    }
  }

  /** `i` is the lowest index whose flag is clear. */
  predicate IsLowestFree(flags: seq<bool>, i: nat)
  {
    i < |flags| && !flags[i] && forall j :: 0 <= j < i ==> flags[j]
  }

  /** The scan of `allocate()`: the lowest index whose "allocated" flag is
      clear, or None when every flag is set. */
  function FirstFree(flags: seq<bool>): (r: Option<nat>)
    ensures r.Some? ==> IsLowestFree(flags, r.value)
    ensures r.None? <==> forall j :: 0 <= j < |flags| ==> flags[j]
    decreases |flags|
  {
    if |flags| == 0 then None
    else if !flags[0] then Some(0)
    else match FirstFree(flags[1..])
      case None => None
      case Some(k) => Some(k + 1)
  }

  /** At most one index is the lowest free one. */
  lemma LowestFreeUnique(flags: seq<bool>, i: nat, j: nat)
    requires IsLowestFree(flags, i) && IsLowestFree(flags, j)
    ensures i == j
  {
  }
}
