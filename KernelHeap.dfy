/**
 * Placement of the kernel heap on a 32-bit ARM target: `up_allocate_kheap` picks
 * the heap's start and size inside the configured kernel region, and
 * `up_add_kregion` hands every further configured region to the kernel heap it
 * belongs to. The region bounds and tables are configuration; the allocator
 * (`mm_initialize`, `mm_addregion`) is not part of this model beyond the heap
 * size it records.
 */
module KernelHeap {
  import opened ByteOrder

  /** `x & ~7` on an unsigned address: clearing the low three bits is rounding down to a multiple of 8. */
  /** The rounded address is 8-aligned, not above the original and less than 8 below it. */
  function AlignDown8(x: uint32): (r: uint32)
    ensures r as int % 8 == 0
    ensures r <= x && x as int - r as int < 8
  {
    (x / 8) * 8
  }

  /** Rounding down keeps an aligned address and is idempotent. */
  lemma AlignDown8Idempotent(x: uint32)
    ensures x as int % 8 == 0 ==> AlignDown8(x) == x
    ensures AlignDown8(AlignDown8(x)) == AlignDown8(x)
  {
  }

  /** The kernel heap `up_allocate_kheap` reports: its start address and its `size_t` size. */
  datatype Kheap = Kheap(start: uint32, size: uint32)

  /**
   * `up_allocate_kheap`: start at the top of the idle stack rounded down to 8 bytes,
   * unless that lies outside [kregionStart, kregionEnd], in which case the whole
   * region is used; the heap runs to the region's end (the pointer difference
   * stored in a 32-bit `size_t`).
   */
  function AllocateKheap(idleTopStack: uint32, kregionStart: uint32, kregionEnd: uint32): (r: Kheap)
    ensures r.start == AlignDown8(idleTopStack) || r.start == kregionStart
    ensures (r.start as int + r.size as int - kregionEnd as int) % UINT32_MODULUS == 0
  {
    var candidate := AlignDown8(idleTopStack);
    var start := if candidate < kregionStart || candidate > kregionEnd then kregionStart else candidate;
    Kheap(start, Unsigned32(kregionEnd as int - start as int))
  }

  /** The aligned candidate is kept exactly when it lies in the region; otherwise the region's start is used. */
  lemma KheapStartChoice(idleTopStack: uint32, kregionStart: uint32, kregionEnd: uint32)
    ensures var r := AllocateKheap(idleTopStack, kregionStart, kregionEnd);
      var candidate := AlignDown8(idleTopStack);
      && (kregionStart <= candidate <= kregionEnd ==> r.start == candidate)
      && (candidate < kregionStart || candidate > kregionEnd ==> r.start == kregionStart)
      && (kregionStart <= kregionEnd ==> (r.start == candidate <==> kregionStart <= candidate <= kregionEnd))
  {
  }

  /**
   * In a well-formed region the heap lies inside it and ends exactly at its end:
   * start + size is the region's end and the size never exceeds the region's.
   */
  lemma KheapInRegion(idleTopStack: uint32, kregionStart: uint32, kregionEnd: uint32)
    requires kregionStart <= kregionEnd
    ensures var r := AllocateKheap(idleTopStack, kregionStart, kregionEnd);
      && kregionStart <= r.start <= kregionEnd
      && r.start as int + r.size as int == kregionEnd as int
      && r.size as int <= kregionEnd as int - kregionStart as int
  {
  }

  /** A stack top already at the region's end leaves an empty heap. */
  lemma KheapAtRegionEnd(idleTopStack: uint32, kregionStart: uint32, kregionEnd: uint32)
    requires kregionStart <= kregionEnd && AlignDown8(idleTopStack) == kregionEnd
    ensures AllocateKheap(idleTopStack, kregionStart, kregionEnd) == Kheap(kregionEnd, 0)
  {
  }

  /**
   * A region whose end lies below its start is not rejected: the start is the
   * region's start and the negative difference wraps around in `size_t`.
   */
  lemma KheapInvertedRegion(idleTopStack: uint32, kregionStart: uint32, kregionEnd: uint32)
    requires kregionEnd < kregionStart
    ensures var r := AllocateKheap(idleTopStack, kregionStart, kregionEnd);
      r.start == kregionStart && r.size as int == UINT32_MODULUS - (kregionStart as int - kregionEnd as int)
  {
  }

  /**
   * The extra kernel regions: `CONFIG_KMM_REGIONS` entries of `regionx_kheap_idx`,
   * `kregionx_start` and `kregionx_size`. Region 0 is the one `up_allocate_kheap`
   * placed; the others are added here.
   */
  datatype RegionTable = RegionTable(heapIdx: seq<nat>, starts: seq<nat>, sizes: seq<nat>)
  {
    predicate WellSized()
    {
      |heapIdx| == |starts| == |sizes|
    }

    predicate Valid(numHeaps: nat)
    {
      && WellSized()
      && forall i :: 0 <= i < |heapIdx| ==> heapIdx[i] < numHeaps
    }

    function Count(): nat
    {
      |heapIdx|
    }
  }

  /** A call `up_add_kregion` makes on a kernel heap, with the region's start and size. */
  datatype HeapCall =
    | Initialize(heap: nat, start: nat, size: nat)
    | AddRegion(heap: nat, start: nat, size: nat)
  {
    function Heap(): nat
    {
      match this
      case Initialize(h, _, _) => h
      case AddRegion(h, _, _) => h
    }
  }

  /**
   * One round of the loop for region k: `mm_initialize` when the target heap is
   * still empty, `mm_addregion` otherwise. The call leaves the heap recording its
   * old size plus the region's (nothing was recorded before an initialize).
   */
  function Dispatch(heapSizes: seq<nat>, t: RegionTable, k: nat): (r: (HeapCall, seq<nat>))
    requires t.Valid(|heapSizes|) && k < t.Count()
    ensures r.0.Heap() == t.heapIdx[k]
    ensures r.0.Initialize? <==> heapSizes[t.heapIdx[k]] == 0
    ensures r.0 == Initialize(t.heapIdx[k], t.starts[k], t.sizes[k]) || r.0 == AddRegion(t.heapIdx[k], t.starts[k], t.sizes[k])
    ensures |r.1| == |heapSizes| && r.1[t.heapIdx[k]] == heapSizes[t.heapIdx[k]] + t.sizes[k]
    ensures forall j :: 0 <= j < |heapSizes| && j != t.heapIdx[k] ==> r.1[j] == heapSizes[j]
  {
    var h := t.heapIdx[k];
    var call := if heapSizes[h] == 0 then Initialize(h, t.starts[k], t.sizes[k]) else AddRegion(h, t.starts[k], t.sizes[k]);
    (call, heapSizes[h := heapSizes[h] + t.sizes[k]])
  }

  /** The effect of the loop's rounds for regions 1 .. n-1: the calls, in order, and the heap sizes after them. */
  function AddKregions(heapSizes: seq<nat>, t: RegionTable, n: nat): (r: (seq<HeapCall>, seq<nat>))
    requires t.Valid(|heapSizes|) && n <= t.Count()
    ensures |r.0| == (if n <= 1 then 0 else n - 1) && |r.1| == |heapSizes|
  {
    if n <= 1 then ([], heapSizes)
    else
      var before := AddKregions(heapSizes, t, n - 1);
      var step := Dispatch(before.1, t, n - 1);
      (before.0 + [step.0], step.1)
  }

  /**
   * `up_add_kregion` over the kernel heaps' recorded sizes (`mm_heapsize`): returns
   * the calls it made.
   */
  method AddKregion(heapSize: array<nat>, t: RegionTable) returns (calls: seq<HeapCall>)
    requires t.Valid(heapSize.Length)
    modifies heapSize
    ensures (calls, heapSize[..]) == AddKregions(old(heapSize[..]), t, t.Count())
  {
    calls := [];
    if t.Count() <= 1 {
      return;
    }
    ghost var initial := heapSize[..];
    for regionCnt := 1 to t.Count()
      invariant (calls, heapSize[..]) == AddKregions(initial, t, regionCnt)
    {
      var h := t.heapIdx[regionCnt];
      if heapSize[h] == 0 {
        calls := calls + [Initialize(h, t.starts[regionCnt], t.sizes[regionCnt])];
        heapSize[h] := heapSize[h] + t.sizes[regionCnt];
        continue;
      }
      calls := calls + [AddRegion(h, t.starts[regionCnt], t.sizes[regionCnt])];
      heapSize[h] := heapSize[h] + t.sizes[regionCnt];
    }
  }

  /**
   * The loop visits regions 1 .. n-1 once each, in order, never region 0: call i is
   * about region i + 1, on its heap and with its start and size, and it is an
   * initialize exactly when that heap was empty at that moment.
   */
  lemma {:induction false} AddKregionsVisits(heapSizes: seq<nat>, t: RegionTable, n: nat, i: nat)
    requires t.Valid(|heapSizes|) && 1 <= n <= t.Count() && i < n - 1
    ensures var calls := AddKregions(heapSizes, t, n).0;
      && |calls| == n - 1
      && calls[i].Heap() == t.heapIdx[i + 1]
      && calls[i] in {Initialize(t.heapIdx[i + 1], t.starts[i + 1], t.sizes[i + 1]),
                      AddRegion(t.heapIdx[i + 1], t.starts[i + 1], t.sizes[i + 1])}
      && (calls[i].Initialize? <==> AddKregions(heapSizes, t, i + 1).1[t.heapIdx[i + 1]] == 0)
  {
    if i < n - 2 {
      AddKregionsVisits(heapSizes, t, n - 1, i);
    }
  }

  /** The total size of the regions among 1 .. n-1 that belong to heap h. */
  function RegionTotal(t: RegionTable, h: nat, n: nat): nat
    requires t.WellSized() && n <= t.Count()
  {
    if n <= 1 then 0
    else RegionTotal(t, h, n - 1) + (if t.heapIdx[n - 1] == h then t.sizes[n - 1] else 0)
  }

  /** Every heap ends up recording its old size plus the sizes of all the regions added to it. */
  lemma {:induction false} AddKregionsSizes(heapSizes: seq<nat>, t: RegionTable, n: nat, h: nat)
    requires t.Valid(|heapSizes|) && n <= t.Count() && h < |heapSizes|
    ensures AddKregions(heapSizes, t, n).1[h] == heapSizes[h] + RegionTotal(t, h, n)
  {
    if n > 1 {
      AddKregionsSizes(heapSizes, t, n - 1, h);
    }
  }

  /**
   * With non-empty regions, no heap is initialized twice and a heap that already
   * held memory is never re-initialized: every call on a heap after its first is
   * an add, and a first call is an initialize only on a heap that started empty.
   */
  lemma {:induction false} AddKregionsNoReinit(heapSizes: seq<nat>, t: RegionTable, n: nat, i: nat, j: nat)
    requires t.Valid(|heapSizes|) && 1 <= n <= t.Count()
    requires forall k :: 1 <= k < t.Count() ==> t.sizes[k] > 0
    requires i < j < n - 1
    ensures var calls := AddKregions(heapSizes, t, n).0;
      calls[i].Heap() == calls[j].Heap() ==> calls[j].AddRegion?
  {
    var calls := AddKregions(heapSizes, t, n).0;
    AddKregionsVisits(heapSizes, t, n, i);
    AddKregionsVisits(heapSizes, t, n, j);
    var h := t.heapIdx[i + 1];
    if calls[i].Heap() == calls[j].Heap() {
      AddKregionsSizes(heapSizes, t, j + 1, h);
      RegionTotalCounts(t, h, i + 1, j + 1);
    }
  }

  /** A region of heap h among 1 .. n-1 contributes its size to the total. */
  lemma {:induction false} RegionTotalCounts(t: RegionTable, h: nat, k: nat, n: nat)
    requires t.WellSized() && 1 <= k < n <= t.Count() && t.heapIdx[k] == h
    ensures RegionTotal(t, h, n) >= t.sizes[k]
  {
    if k < n - 1 {
      RegionTotalCounts(t, h, k, n - 1);
    }
  }

  /** The loop only ever initializes a heap that was empty before it started. */
  lemma AddKregionsFirstCall(heapSizes: seq<nat>, t: RegionTable, n: nat, i: nat)
    requires t.Valid(|heapSizes|) && 1 <= n <= t.Count() && i < n - 1
    ensures var calls := AddKregions(heapSizes, t, n).0;
      calls[i].Initialize? ==> calls[i].Heap() == t.heapIdx[i + 1] && heapSizes[t.heapIdx[i + 1]] == 0
  {
    AddKregionsVisits(heapSizes, t, n, i);
    AddKregionsSizes(heapSizes, t, i + 1, t.heapIdx[i + 1]);
  }
}
