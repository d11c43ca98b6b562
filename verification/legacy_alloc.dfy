/** The older allocator of the top-level crate: a 1024-slot cache whose
    first-fit scan checks the size only and which always removes the whole
    block it picks, by swap-with-last. */
module LegacyAlloc {
  import opened Options
  import opened Blocks
  import opened FreeList
  import Backend
  import Allocator

  const CAPACITY: nat := 1024

  predicate Valid(h: Allocator.Heap) {
    Allocator.Valid(h, CAPACITY)
  }

  /** `InternalState::new`: no block cached, all 1024 slots empty. */
  function New(): (fa: FreeArray)
    ensures FreeList.Valid(fa) && fa.count == 0 && |fa.slots| == CAPACITY
    ensures forall k :: 0 <= k < CAPACITY ==> fa.slots[k] == None
    ensures Cached(fa) == [] && TotalBytes(fa) == 0
  {
    Empty(CAPACITY)
  }

  /** What one legacy `alloc` call does under the given fit test and way of
      reporting a failed reservation. On a hit (the lowest occupied slot whose
      block passes the test) the caller gets that block's address and the
      whole block leaves the cache by swap-with-last, even when it is larger
      than asked for; the bytes handed out overlap nothing left in the cache;
      the backend is not consulted. On a miss the cache is unchanged and the
      request goes to the backend. */
  predicate TookWhole(h: Allocator.Heap, layout: Layout, policy: Policy, signal: Backend.Signal, h': Allocator.Heap, p: nat)
    requires Valid(h)
  {
    match FirstFit(h.cache, layout, policy)
    case Some(i) =>
      var b := h.cache.slots[i].value;
      && p == b.ptr
      && Fits(b, layout, policy)
      && h'.backend == h.backend
      && h'.cache == SwapRemove(h.cache, i)
      && (Sound(h.cache) ==> Sound(h'.cache) && DisjointFromAll(Block(p, layout.size), Cached(h'.cache)))
    case None =>
      var res := Backend.Reserve(h.backend, layout.size);
      && h'.cache == h.cache
      && h'.backend == res.provider
      && p == Backend.MissPointer(res.addr, signal)
  }

  /** `GlobalAlloc::alloc` as written: the scan tests the size only, the
      whole block is taken, and a miss whose reservation fails hands the
      caller `MAP_FAILED`. The cache loses the chosen block's full size, so
      its surplus over `layout.size` is neither cached nor released. */
  method Alloc(h: Allocator.Heap, layout: Layout) returns (h': Allocator.Heap, p: nat)
    requires Valid(h)
    ensures Valid(h') && TookWhole(h, layout, SizeOnly, Backend.PassMapFailed, h', p)
    ensures match FirstFit(h.cache, layout, SizeOnly)
      case Some(i) =>
        var b := h.cache.slots[i].value;
        && b.size >= layout.size
        && multiset(Cached(h'.cache)) == multiset(Cached(h.cache)) - multiset{b}
        && TotalBytes(h'.cache) + b.size == TotalBytes(h.cache)
      case None =>
        Backend.Reserve(h.backend, layout.size).addr.None? ==> p == Backend.MAP_FAILED && p != Backend.NULL
  {
    h', p := TakeWhole(h, layout, SizeOnly, Backend.PassMapFailed);
  }

  /** The legacy `alloc` with both findings corrected: the scan also tests
      alignment, so every pointer served from the cache is aligned, and a
      miss reports a failed reservation with null. */
  method AllocAligned(h: Allocator.Heap, layout: Layout) returns (h': Allocator.Heap, p: nat)
    requires Valid(h)
    ensures Valid(h') && TookWhole(h, layout, SizeAndAlign, Backend.ReturnNull, h', p)
    ensures match FirstFit(h.cache, layout, SizeAndAlign)
      case Some(i) => p % layout.align == 0
      case None => p == Backend.NULL <==> Backend.Reserve(h.backend, layout.size).addr.None?
  {
    h', p := TakeWhole(h, layout, SizeAndAlign, Backend.ReturnNull);
  }

  /** The body of the legacy `alloc`: first fit under `policy`, then
      whole-block removal or the backend. */
  method TakeWhole(h: Allocator.Heap, layout: Layout, policy: Policy, signal: Backend.Signal) returns (h': Allocator.Heap, p: nat)
    requires Valid(h)
    ensures Valid(h') && TookWhole(h, layout, policy, signal, h', p)
  {
    var found := FindFit(h.cache, layout, policy);
    match found {
      case Some(i) =>
        var block := h.cache.slots[i].value;
        h' := h.(cache := SwapRemove(h.cache, i));
        p := block.ptr;
        SwapRemoveSound(h.cache, i, h'.cache);
        if Sound(h.cache) {
          var c := Cached(h'.cache);
          forall k | 0 <= k < |c|
            ensures Disjoint(Block(p, layout.size), c[k])
          {
            WithinDisjoint(Block(p, layout.size), block, c[k]);
          }
        }
      case None =>
        var res := Backend.Reserve(h.backend, layout.size);
        h' := h.(backend := res.provider);
        p := Backend.MissPointer(res.addr, signal);
    }
  }

  /** The size-only scan can pick a block whose address misses the requested
      alignment: with one page-sized block at 4096 cached, a request for a
      page aligned to 8192 is served from address 4096. */
  lemma MisalignedHit()
    ensures var c := Insert(New(), Block(4096, 4096));
      var layout := Layout(4096, 8192);
      && FirstFit(c, layout, SizeOnly) == Some(0)
      && c.slots[0].value.ptr % layout.align != 0
  {
    var c := Insert(New(), Block(4096, 4096));
    assert FitsAt(c, 0, Layout(4096, 8192), SizeOnly);
  }
}
