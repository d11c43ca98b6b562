/** The allocator of crates/benemalloc: a 2048-slot cache whose first-fit
    scan demands both size and alignment, which splits a larger block and
    swap-removes an exactly sized one. */
module BeneAlloc {
  import opened Options
  import opened Blocks
  import opened FreeList
  import Backend
  import Allocator

  const CAPACITY: nat := 2048

  predicate Valid(h: Allocator.Heap) {
    Allocator.Valid(h, CAPACITY)
  }

  /** `InternalState::new`: no block cached, all 2048 slots empty. */
  function New(): (fa: FreeArray)
    ensures FreeList.Valid(fa) && fa.count == 0 && |fa.slots| == CAPACITY
    ensures forall k :: 0 <= k < CAPACITY ==> fa.slots[k] == None
    ensures Cached(fa) == [] && TotalBytes(fa) == 0
  {
    Empty(CAPACITY)
  }

  /** What one `alloc` call does, given how a failed reservation is reported.
      On a hit (the lowest occupied slot whose block is large enough and
      aligned) the caller gets that block's address, which is therefore
      aligned; a larger block is split in place and an exact one swap-removed;
      the cache loses exactly `layout.size` bytes, none of which any block
      left in the cache still covers; the backend is not consulted. On a miss
      the cache is unchanged and the request goes to the backend. */
  predicate Served(h: Allocator.Heap, layout: Layout, signal: Backend.Signal, h': Allocator.Heap, p: nat)
    requires Valid(h)
  {
    match FirstFit(h.cache, layout, SizeAndAlign)
    case Some(i) =>
      && p == h.cache.slots[i].value.ptr
      && p % layout.align == 0
      && h'.backend == h.backend
      && FreeList.Valid(h'.cache)
      && (h.cache.slots[i].value.size > layout.size ==> h'.cache == Carve(h.cache, i, layout.size))
      && (h.cache.slots[i].value.size == layout.size ==> h'.cache == SwapRemove(h.cache, i))
      && TotalBytes(h'.cache) + layout.size == TotalBytes(h.cache)
      && (Sound(h.cache) ==> Sound(h'.cache) && DisjointFromAll(Block(p, layout.size), Cached(h'.cache)))
    case None =>
      var res := Backend.Reserve(h.backend, layout.size);
      && h'.cache == h.cache
      && h'.backend == res.provider
      && p == Backend.MissPointer(res.addr, signal)
  }

  /** `GlobalAlloc::alloc` as written: a miss whose reservation fails hands
      the caller `MAP_FAILED`, a non-null pointer. */
  method Alloc(h: Allocator.Heap, layout: Layout) returns (h': Allocator.Heap, p: nat)
    requires Valid(h)
    ensures Valid(h') && Served(h, layout, Backend.PassMapFailed, h', p)
    ensures FirstFit(h.cache, layout, SizeAndAlign).None? && Backend.Reserve(h.backend, layout.size).addr.None?
      ==> p == Backend.MAP_FAILED && p != Backend.NULL
  {
    h', p := Serve(h, layout, Backend.PassMapFailed);
  }

  /** `alloc` with the miss path corrected to report a failed reservation
      with null: on a miss the result is null exactly when the backend failed. */
  method AllocNullOnFailure(h: Allocator.Heap, layout: Layout) returns (h': Allocator.Heap, p: nat)
    requires Valid(h)
    ensures Valid(h') && Served(h, layout, Backend.ReturnNull, h', p)
    ensures FirstFit(h.cache, layout, SizeAndAlign).None? ==>
      (p == Backend.NULL <==> Backend.Reserve(h.backend, layout.size).addr.None?)
  {
    h', p := Serve(h, layout, Backend.ReturnNull);
  }

  /** The body of `alloc`: the first-fit scan, then split, swap-remove or the backend. */
  method Serve(h: Allocator.Heap, layout: Layout, signal: Backend.Signal) returns (h': Allocator.Heap, p: nat)
    requires Valid(h)
    ensures Valid(h') && Served(h, layout, signal, h', p)
  {
    var found := FindFit(h.cache, layout, SizeAndAlign);
    match found {
      case Some(i) =>
        var block := h.cache.slots[i].value;
        h' := h.(cache := Take(h.cache, i, layout.size));
        p := block.ptr;
      case None =>
        var res := Backend.Reserve(h.backend, layout.size);
        h' := h.(backend := res.provider);
        p := Backend.MissPointer(res.addr, signal);
    }
  }

  /** Reuse: a region freed into a cache with room serves any later request
      no larger than it whose alignment its address meets; when nothing
      cached before it fits, it is the block chosen. */
  lemma ReuseAfterDealloc(h: Allocator.Heap, ptr: nat, freedLayout: Layout, layout: Layout)
    requires Valid(h) && h.cache.count < CAPACITY
    requires layout.size <= freedLayout.size && ptr % layout.align == 0
    ensures var c := Allocator.Dealloc(h, ptr, freedLayout).cache;
      var r := FirstFit(c, layout, SizeAndAlign);
      && r.Some? && r.value <= h.cache.count
      && ((forall j :: 0 <= j < h.cache.count ==> !FitsAt(h.cache, j, layout, SizeAndAlign))
            ==> r == Some(h.cache.count) && c.slots[r.value].value.ptr == ptr)
  {
    var c := Allocator.Dealloc(h, ptr, freedLayout).cache;
    assert FitsAt(c, h.cache.count, layout, SizeAndAlign);
    assert forall j :: 0 <= j < h.cache.count ==>
      (FitsAt(c, j, layout, SizeAndAlign) <==> FitsAt(h.cache, j, layout, SizeAndAlign));
  }

  /** Split: an `s`-byte region freed into an empty cache (which a cache
      with room stores by `Insert`) serves an `n`-byte request (`n < s`) from
      its front; the other `s - n` bytes stay cached as one block starting
      `n` bytes further on, and that block alone can serve a later request of
      up to `s - n` bytes it is aligned for. */
  lemma SplitLeavesRemainder(fa: FreeArray, a: nat, s: nat, n: nat, align: Pos, laterSize: nat, laterAlign: Pos)
    requires FreeList.Valid(fa) && fa.count == 0 && 0 < |fa.slots|
    requires n < s && a % align == 0
    requires laterSize <= s - n && (a + n) % laterAlign == 0
    ensures FirstFit(Insert(fa, Block(a, s)), Layout(n, align), SizeAndAlign) == Some(0)
    ensures Cached(Take(Insert(fa, Block(a, s)), 0, n)) == [Block(a + n, s - n)]
    ensures FirstFit(Take(Insert(fa, Block(a, s)), 0, n), Layout(laterSize, laterAlign), SizeAndAlign) == Some(0)
  {
    var c := Insert(fa, Block(a, s));
    FirstFitAtZero(c, Layout(n, align));
    CarveOnly(c, a, s, n);
    FirstFitAtZero(Take(c, 0, n), Layout(laterSize, laterAlign));
  }

  lemma CarveOnly(c: FreeArray, a: nat, s: nat, n: nat)
    requires FreeList.Valid(c) && c.count == 1 && c.slots[0] == Some(Block(a, s)) && n < s
    ensures Take(c, 0, n).count == 1
    ensures Take(c, 0, n).slots[0] == Some(Block(a + n, s - n))
    ensures Cached(Take(c, 0, n)) == [Block(a + n, s - n)]
  {
    var t := Take(c, 0, n);
    assert t == Carve(c, 0, n);
    assert Cached(t)[0] == Block(a + n, s - n);
  }

  lemma FirstFitAtZero(fa: FreeArray, layout: Layout)
    requires 0 < fa.count <= |fa.slots| && FitsAt(fa, 0, layout, SizeAndAlign)
    ensures FirstFit(fa, layout, SizeAndAlign) == Some(0)
  {
  }
}
