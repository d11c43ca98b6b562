# benemalloc free-block cache, modelled in Dafny

benemalloc is a Rust `GlobalAlloc`. It keeps freed regions in a bounded array
of `Option<Block>` slots plus a count of occupied slots. A `Block` is an address
and a byte size. `alloc` serves a request from the first cached block that fits.
If nothing fits, it maps fresh memory with `mmap`. `dealloc` caches the freed
region if a slot is free. Otherwise it unmaps the region.

This project models two revisions of that cache:

- `crates/benemalloc/src/lib.rs`, with 2048 slots (module `BeneAlloc`). Its
  first-fit scan requires both enough size and the requested alignment. A
  larger block is split in place: the caller gets the front and the slot keeps
  the remainder. An exactly sized block is removed by swapping the last
  occupied slot into its place.
- `src/lib.rs`, an older revision with 1024 slots (module `LegacyAlloc`). Its
  scan checks size only. It always removes the whole block it picks, by
  swap-with-last.

Files and modules:

- `options.dfy`: `Options.Option`.
- `blocks.dfy`: `Blocks` holds the `Block` region type. It also defines when
  two regions overlap, the byte total of a list of blocks, and the two pieces
  of a split.
- `backend.dfy`: `Backend` is the page provider behind the cache (`malloc` =
  `mmap`, `munmap_size` = `munmap`). It is modelled as a bump allocator over
  an abstract address range. It never hands out the same bytes twice, and it
  logs every region it maps and every region it gets back. `Backend` also
  holds the null-versus-`MAP_FAILED` finding below.
- `free_list.dfy`: `FreeList` is `InternalState`, shared by both revisions:
  - `Empty` (`InternalState::new`), `Insert`, swap-remove and split in place;
  - the first-fit reference function `FirstFit`;
  - the scan loop `FindFit`, which is proved equal to `FirstFit`.
  The capacity is the length of the slot array, as the guard
  `size < free_array.len()` reads it.
- `allocator.dfy`: `Allocator` pairs the cache with the backend (`Heap`). It
  holds `dealloc`, which is identical in both revisions up to capacity, and a
  lemma about a run of frees.
- `bene_alloc.dfy` and `legacy_alloc.dfy`: each revision's constructor and
  `alloc`, plus the lemmas for the properties the allocator is meant to have.
  Each `alloc` is modelled as written. A corrected variant stands beside it
  for each finding below.

The cache is one global array behind a `Mutex`, with 2048 slots (1024 in
the older revision). The model is sequential, so there is no lock. Neither
revision has a per-thread cache, a process-wide disable flag, a panic-unwind
bypass or resize.

Invariants proved throughout:

- `FreeList.Valid`: the occupied slots are exactly `[0, count)`, so
  `count <= capacity`.
- `FreeList.Sound`: no two cached blocks overlap.
- `Backend.Valid`: every mapped region is non-null and lies below the
  backend's next fresh address.

## Model

| member | source | states |
|---|---|---|
| `Blocks.Split` | crates/benemalloc/src/lib.rs:69-75 | Splitting `n` bytes off a block gives two pieces. The front piece starts at the block's address and is `n` bytes long. The remainder starts where the front ends and ends where the block ended. The two pieces are disjoint, both lie inside the block, and their sizes add up to the block's size. |
| `Backend.Reserve` | crates/benemalloc/src/lib.rs:108-124 | `malloc` either gives a fresh region or fails and leaves the backend unchanged. It fails for a zero length or when the address space is exhausted. A fresh region is non-null, overlaps no region mapped before, and is appended to the log of mapped regions. |
| `Backend.Release` | crates/benemalloc/src/lib.rs:126-130 | `munmap_size` appends the region to the release log and changes nothing else about the backend. |
| `Backend.FailureLooksLikeSuccess` | crates/benemalloc/src/lib.rs:87-89 | As written, a cache miss whose `mmap` fails hands the caller a non-null pointer (`MAP_FAILED`). |
| `Backend.Fallback` | crates/benemalloc/src/lib.rs:87-89 | Corrected miss path: the pointer is null exactly when the reservation failed. Otherwise it is the reserved address. |
| `FreeList.Insert` | crates/benemalloc/src/lib.rs:36-39 | The block is written at slot `count` and `count` grows by one. No other slot changes. The invariant is kept, and the cached blocks become the old ones followed by the new block. |
| `FreeList.SwapRemove` | crates/benemalloc/src/lib.rs:76-80 | Slot `i` takes the last occupied block, the last occupied slot becomes `None`, and `count` drops by one. The invariant is kept. The remaining blocks are the old ones minus one copy of block `i`, as a multiset. The cached byte total falls by that block's size. |
| `FreeList.Carve` | crates/benemalloc/src/lib.rs:69-75 | The split branch: slot `i` becomes `{ptr + n, size - n}`. `count` and all other slots are unchanged. The cached byte total falls by exactly `n`. |
| `FreeList.Take` | crates/benemalloc/src/lib.rs:68-81 | A hit on slot `i` for `n` bytes removes exactly `n` bytes from the cache. If the cached blocks were pairwise disjoint, they stay disjoint. The `n` bytes handed out overlap no block left in the cache. |
| `FreeList.CarveSound` | crates/benemalloc/src/lib.rs:69-75 | After a split, the remainder overlaps no other cached block, and the returned front overlaps nothing still cached. |
| `FreeList.SwapRemoveSound` | crates/benemalloc/src/lib.rs:76-80 | Swap-removing a block keeps the cache free of overlaps. The removed block overlaps none of the blocks left behind. |
| `FreeList.FirstFit` | crates/benemalloc/src/lib.rs:63-67 | Returns the lowest occupied index whose block serves the request. It returns none exactly when no occupied slot serves it. |
| `FreeList.FindFit` | crates/benemalloc/src/lib.rs:63-64 | The `for i in 0..freeblocks_size` scan with `if let Some(block)` returns the first-fit index, or none. |
| `Allocator.Dealloc` | crates/benemalloc/src/lib.rs:94-105 | With a free slot, the region `{ptr, layout.size}` is appended to the cache and the backend is untouched. On a full cache, the cache is unchanged and the region is released to the backend. Either way the invariant is kept. Freeing a region that overlaps nothing cached keeps the cache free of overlaps. |
| `Allocator.InsertSound` | crates/benemalloc/src/lib.rs:97-101 | Inserting a block that overlaps nothing cached keeps the cached blocks pairwise disjoint. |
| `Allocator.OverflowFromEmpty` | crates/benemalloc/src/lib.rs:97-104 | Freeing one region more than the capacity into an empty cache caches all but the last, in order. The last is released to the backend. This holds for 2048 slots here and for 1024 in src/lib.rs:75-82. |
| `Allocator.DeallocAllFillsThenReleases` | crates/benemalloc/src/lib.rs:97-104 | In a run of frees, the first `capacity - count` regions are cached in order and every later one is released to the backend in order. `count` never exceeds the capacity. |
| `BeneAlloc.New` | crates/benemalloc/src/lib.rs:30-35 | `count` is 0 and all 2048 slots are `None`. No block is cached. |
| `BeneAlloc.Serve` | crates/benemalloc/src/lib.rs:62-89 | On a hit, the result is the address of the lowest slot whose block is large enough and aligned, so it is aligned. A larger block is split in place and an exact one is swap-removed. The cache loses exactly `layout.size` bytes, the handed-out bytes overlap nothing still cached, and the backend is untouched. On a miss, the cache is unchanged and the backend is asked. The invariant holds afterwards. |
| `BeneAlloc.Alloc` | crates/benemalloc/src/lib.rs:55-90 | Everything `Serve` states. In addition, a miss whose reservation fails returns `MAP_FAILED`, a non-null pointer, as the code does. |
| `BeneAlloc.AllocNullOnFailure` | crates/benemalloc/src/lib.rs:87-89 | Corrected miss path: everything `Serve` states, and on a miss the result is null exactly when the backend failed. |
| `BeneAlloc.ReuseAfterDealloc` | crates/benemalloc/src/lib.rs:63-101 | A region freed into a cache with room is found by the first-fit scan for any later request no larger than it whose alignment its address meets. If nothing cached earlier fits, that region is the block chosen. |
| `BeneAlloc.SplitLeavesRemainder` | crates/benemalloc/src/lib.rs:68-75 | Cache an `s`-byte region in an empty cache (what `dealloc` does when a slot is free), then request `n < s` bytes. The caller gets the region's front. The cache holds exactly one block, `{a + n, s - n}`, which can serve a later request of up to `s - n` bytes. |
| `LegacyAlloc.New` | src/lib.rs:25-30 | `count` is 0 and all 1024 slots are `None`. |
| `LegacyAlloc.Alloc` | src/lib.rs:49-68 | On a hit, the result is the address of the lowest slot whose block is large enough, and alignment is not checked. The whole block leaves the cache by swap-with-last, even when it is larger than asked for. The cache loses that block's full size, and the remaining blocks are the old ones minus it, as a multiset. On a miss, the cache is unchanged and the backend is asked. A failed reservation returns `MAP_FAILED`, a non-null pointer. |
| `LegacyAlloc.TakeWhole` | src/lib.rs:54-67 | Shared body of the legacy scan: take the first fit under the given test, swap-remove it, or fall back to the backend. The handed-out bytes overlap nothing still cached. |
| `LegacyAlloc.MisalignedHit` | src/lib.rs:50-61 | A cached block at 4096 of size 4096 is chosen for a request of 4096 bytes aligned to 8192, and its address is not aligned. |
| `LegacyAlloc.AllocAligned` | src/lib.rs:50-67 | Corrected legacy `alloc`. The scan also checks alignment, so every pointer served from the cache is aligned. On a miss, the result is null exactly when the backend failed. |

## Findings

| source | as written | input that shows it | evidently intended | confidence | as-written member | corrected member |
|---|---|---|---|---|---|---|
| crates/benemalloc/src/lib.rs:87-89 | On a cache miss `alloc` returns `mmap`'s result unchanged. A failed `mmap` yields `MAP_FAILED` (all bits set), not null. src/lib.rs:65-67 does the same. | Any request the backend cannot satisfy, e.g. a backend whose next address plus the size exceeds its limit. | Return null on failure, as the `GlobalAlloc` contract asks (crates/allocations/src/lib.rs:45 says the same). | high; not executed | `BeneAlloc.Alloc`, `LegacyAlloc.Alloc`, `Backend.FailureLooksLikeSuccess` | `BeneAlloc.AllocNullOnFailure`, `Backend.Fallback` |
| src/lib.rs:54-61 | The first-fit test checks size only, so a cache hit can be misaligned. | Cached `Block { ptr: 4096, size: 4096 }`, `Layout { size: 4096, align: 8192 }`: returns 4096. | The returned pointer meets `layout.align`. See the TODO at src/lib.rs:50; the newer revision adds the check. | high; not executed | `LegacyAlloc.MisalignedHit` (on `LegacyAlloc.Alloc`) | `LegacyAlloc.AllocAligned` |

## Left out

- The `Mutex` and its poisoning (crates/benemalloc/src/lib.rs:56-61, 95-96; src/lib.rs:51-52, 73-74). The model is sequential, so these poisoned-lock cases are not modelled: the newer `alloc` returns null, the older `alloc` panics on `lock.as_mut().unwrap()` (src/lib.rs:52), and `dealloc` panics in both revisions.
- The operating system behind `mmap`/`munmap`. The backend is a bump allocator with an abstract address limit. Page granularity, page alignment, and `munmap` rounding a length up to whole pages are not modelled. Neither is `munmap`'s status, which both revisions ignore.
- The `debug_assert!`s on alignment (crates/benemalloc/src/lib.rs:82, 88; src/lib.rs:66). The assertion on a cache hit is proved as part of `BeneAlloc.Serve`. The one on the backend result depends on page alignment, which is not modelled.
- `BeneAlloc.Alloc`: states alignment only for cache hits, because the alignment of an `mmap` result depends on the page size, which the backend does not model.
- The caller's contract that `dealloc` receives a live allocation's pointer and layout. The model keeps no ledger of live allocations, so keeping the cache free of overlaps under `Allocator.Dealloc` is stated conditionally on the freed region overlapping nothing cached.
- Pointer width. Addresses and sizes are unbounded naturals. `ptr.add(layout.size())` stays inside a block that lies inside one mapping, so it cannot wrap. `MAP_FAILED` is taken at its 64-bit value.
- `Layout`: only `size` and a non-zero `align` are modelled. Rust's guarantees that `align` is a power of two and that sizes are bounded are not needed by any property here.
- `FreeList.Insert` requires a free slot. Indexing a full array would panic in Rust, and `dealloc`'s guard rules that out.
- crates/benemalloc/src/tracker.rs (allocation logging), crates/allocations/src/lib.rs (a per-platform backend crate the core does not call), benches, examples and tests.
