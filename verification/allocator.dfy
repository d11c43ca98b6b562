/** The state both `BeneAlloc` revisions carry: the free-block cache (behind a
    mutex in the source; the model is sequential) and the page backend the
    cache falls back on. `dealloc` is the same in both revisions up to the
    capacity, which is the length of the slot array. */
module Allocator {
  import opened Options
  import opened Blocks
  import opened FreeList
  import Backend

  datatype Heap = Heap(cache: FreeArray, backend: Backend.Provider)

  predicate Valid(h: Heap, capacity: nat) {
    && FreeList.Valid(h.cache)
    && |h.cache.slots| == capacity
    && Backend.Valid(h.backend)
  }

  /** `GlobalAlloc::dealloc`: the freed region is cached when a slot is free;
      on a full cache it goes back to the backend and the cache is untouched.
      A region disjoint from everything cached keeps the cache free of overlaps. */
  function Dealloc(h: Heap, ptr: nat, layout: Layout): (h': Heap)
    ensures |h'.cache.slots| == |h.cache.slots|
    ensures h.cache.count < |h.cache.slots| ==>
      && h'.backend == h.backend
      && h'.cache.count == h.cache.count + 1
      && h'.cache.slots[h.cache.count] == Some(Block(ptr, layout.size))
      && (FreeList.Valid(h.cache) ==>
            FreeList.Valid(h'.cache) && Cached(h'.cache) == Cached(h.cache) + [Block(ptr, layout.size)])
    ensures h.cache.count >= |h.cache.slots| ==>
      && h'.cache == h.cache
      && h'.backend == Backend.Release(h.backend, Block(ptr, layout.size))
    ensures Valid(h, |h.cache.slots|) ==> Valid(h', |h.cache.slots|)
    ensures FreeList.Valid(h.cache) && Sound(h.cache) && DisjointFromAll(Block(ptr, layout.size), Cached(h.cache))
      ==> Sound(h'.cache)
  {
    var b := Block(ptr, layout.size);
    if h.cache.count < |h.cache.slots| then
      var h' := h.(cache := Insert(h.cache, b));
      InsertSound(h.cache, b);
      h'
    else
      h.(backend := Backend.Release(h.backend, b))
  }

  lemma InsertSound(fa: FreeArray, b: Block)
    requires fa.count < |fa.slots|
    ensures FreeList.Valid(fa) && Sound(fa) && DisjointFromAll(b, Cached(fa)) ==> Sound(Insert(fa, b))
  {
    if FreeList.Valid(fa) && Sound(fa) && DisjointFromAll(b, Cached(fa)) {
      var c := Cached(fa);
      var c' := Cached(Insert(fa, b));
      assert c' == c + [b];
      forall i, j | 0 <= i < |c'| && 0 <= j < |c'| && i != j
        ensures Disjoint(c'[i], c'[j])
      {
        if i == |c| {
          assert Disjoint(b, c[j]);
        } else if j == |c| {
          assert Disjoint(b, c[i]);
        }
      }
    }
  }

  /** Frees the regions of `freed` one after another, each with a layout of
      its own size (the alignment plays no part in `dealloc`). */
  function DeallocAll(h: Heap, freed: seq<Block>): Heap
    decreases |freed|
  {
    if |freed| == 0 then h
    else DeallocAll(Dealloc(h, freed[0].ptr, Layout(freed[0].size, 1)), freed[1..])
  }

  /** The number of regions of `freed` that find a free slot in `fa`. */
  function Kept(fa: FreeArray, freed: seq<Block>): nat
    requires fa.count <= |fa.slots|
  {
    var room := |fa.slots| - fa.count;
    if |freed| <= room then |freed| else room
  }

  /** `h'` is `h` after the first `Kept` regions of `freed` were cached in
      order and the rest were released to the backend in order. */
  predicate FilledThenReleased(h: Heap, freed: seq<Block>, h': Heap)
    requires FreeList.Valid(h.cache)
  {
    var kept := Kept(h.cache, freed);
    && FreeList.Valid(h'.cache)
    && |h'.cache.slots| == |h.cache.slots|
    && h'.cache.count == h.cache.count + kept
    && Cached(h'.cache) == Cached(h.cache) + freed[..kept]
    && h'.backend == h.backend.(released := h.backend.released + freed[kept..])
  }

  /** A run of frees fills the free slots in order and sends every region
      that finds the cache full to the backend, so the count never passes
      the capacity and no region is lost. */
  lemma {:induction false} DeallocAllFillsThenReleases(h: Heap, freed: seq<Block>)
    requires FreeList.Valid(h.cache)
    ensures FilledThenReleased(h, freed, DeallocAll(h, freed))
    decreases |freed|
  {
    if |freed| == 0 {
      assert freed[..0] == [] && Cached(h.cache) + [] == Cached(h.cache);
      assert h.backend.released + freed == h.backend.released;
    } else {
      var b := freed[0];
      var h1 := Dealloc(h, b.ptr, Layout(b.size, 1));
      assert Block(b.ptr, Layout(b.size, 1).size) == b;
      DeallocAllFillsThenReleases(h1, freed[1..]);
      if h.cache.count < |h.cache.slots| {
        CachedStep(h, freed, h1, DeallocAll(h1, freed[1..]));
      } else {
        ReleasedStep(h, freed, h1, DeallocAll(h1, freed[1..]));
      }
    }
  }

  lemma CachedStep(h: Heap, freed: seq<Block>, h1: Heap, h': Heap)
    requires FreeList.Valid(h.cache) && |freed| > 0 && h.cache.count < |h.cache.slots|
    requires FreeList.Valid(h1.cache) && |h1.cache.slots| == |h.cache.slots|
    requires h1.cache.count == h.cache.count + 1 && h1.backend == h.backend
    requires Cached(h1.cache) == Cached(h.cache) + [freed[0]]
    requires FilledThenReleased(h1, freed[1..], h')
    ensures FilledThenReleased(h, freed, h')
  {
    var kept := Kept(h.cache, freed);
    assert Kept(h1.cache, freed[1..]) == kept - 1;
    assert freed[1..][..kept - 1] == freed[1..kept];
    assert freed[..kept] == [freed[0]] + freed[1..kept];
    assert freed[1..][kept - 1..] == freed[kept..];
  }

  lemma ReleasedStep(h: Heap, freed: seq<Block>, h1: Heap, h': Heap)
    requires FreeList.Valid(h.cache) && |freed| > 0 && h.cache.count >= |h.cache.slots|
    requires h1.cache == h.cache
    requires h1.backend == h.backend.(released := h.backend.released + [freed[0]])
    requires FilledThenReleased(h1, freed[1..], h')
    ensures FilledThenReleased(h, freed, h')
  {
    assert Kept(h.cache, freed) == 0 && Kept(h1.cache, freed[1..]) == 0;
    assert freed[1..][0..] == freed[1..] && freed[0..] == freed;
    assert freed[..0] == [] && freed[1..][..0] == [];
    assert freed == [freed[0]] + freed[1..];
    assert h.backend.released + [freed[0]] + freed[1..] == h.backend.released + freed;
  }

  /** Capacity overflow: freeing one region more than the capacity into an
      empty cache caches all but the last, in order, and releases the last
      one to the backend. */
  lemma OverflowFromEmpty(h: Heap, freed: seq<Block>)
    requires FreeList.Valid(h.cache) && h.cache.count == 0 && |freed| == |h.cache.slots| + 1
    ensures var h' := DeallocAll(h, freed);
      var capacity := |h.cache.slots|;
      && FreeList.Valid(h'.cache)
      && h'.cache.count == capacity
      && Cached(h'.cache) == freed[..capacity]
      && h'.backend.released == h.backend.released + [freed[capacity]]
      && h'.backend.mapped == h.backend.mapped
  {
    var capacity := |h.cache.slots|;
    DeallocAllFillsThenReleases(h, freed);
    assert Kept(h.cache, freed) == capacity;
    assert freed[capacity..] == [freed[capacity]];
    assert Cached(h.cache) == [];
  }
}
