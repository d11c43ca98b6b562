/** The page backend behind the cache: `malloc` (an anonymous private
    read/write `mmap`) and `munmap_size` (an `munmap`). The operating system
    is replaced by a bump allocator over an abstract address range that never
    hands out an address twice, and a log of everything released. */
module Backend {
  import opened Options
  import opened Blocks

  /** The null pointer: what a `GlobalAlloc` returns to signal failure. */
  const NULL: nat := 0

  /** `libc::MAP_FAILED`, the all-ones pointer `mmap` returns on failure
      (on a 64-bit target). */
  const MAP_FAILED: nat := 0xFFFF_FFFF_FFFF_FFFF

  /** `next` is the lowest address never handed out, `limit` the end of the
      address space the backend may use; `mapped` and `released` log every
      region reserved and every region given back, in order. */
  datatype Provider = Provider(next: nat, limit: nat, mapped: seq<Block>, released: seq<Block>)

  /** Every mapped region is non-null and lies below `next`. */
  predicate Valid(p: Provider) {
    && 0 < p.next
    && forall k :: 0 <= k < |p.mapped| ==> 0 < p.mapped[k].ptr && p.mapped[k].End() <= p.next
  }

  /** The result of a reservation: the backend afterwards and the address, if any. */
  datatype Reservation = Reservation(provider: Provider, addr: Option<nat>)

  /** `malloc(size)`: a fresh region of exactly `size` bytes, or failure
      (`mmap` rejects a zero length, and the address space can run out). */
  function Reserve(p: Provider, size: nat): (r: Reservation)
    ensures r.addr.None? ==> r.provider == p
    ensures r.addr.Some? ==>
      && r.provider.mapped == p.mapped + [Block(r.addr.value, size)]
      && r.provider.released == p.released
      && 0 < size
    ensures Valid(p) ==> Valid(r.provider)
    ensures Valid(p) && r.addr.Some? ==>
      && r.addr.value != NULL
      && DisjointFromAll(Block(r.addr.value, size), p.mapped)
  {
    if size == 0 || p.next + size > p.limit then
      Reservation(p, None)
    else
      Reservation(p.(next := p.next + size, mapped := p.mapped + [Block(p.next, size)]), Some(p.next))
  }

  /** `munmap_size(ptr, size)`: the region is logged as released; nothing
      else about the backend changes. Its status result is ignored by both
      callers and is not modelled. */
  function Release(p: Provider, region: Block): (p': Provider)
    ensures p'.released == p.released + [region]
    ensures p'.next == p.next && p'.limit == p.limit && p'.mapped == p.mapped
  {
    p.(released := p.released + [region])
  }

  /** The pointer `alloc` returns on a cache miss AS WRITTEN: the value of
      `mmap` cast to `*mut u8`, so a failed reservation yields MAP_FAILED. */
  function FallbackAsWritten(addr: Option<nat>): nat {
    match addr
    case Some(a) => a
    case None => MAP_FAILED
  }

  /** As written, a failed reservation reaches the caller as a non-null
      pointer, so the caller takes it for a successful allocation. */
  lemma FailureLooksLikeSuccess(p: Provider, size: nat)
    requires Valid(p) && p.next + size > p.limit
    ensures Reserve(p, size).addr.None?
    ensures FallbackAsWritten(Reserve(p, size).addr) != NULL
  {
  }

  /** The pointer a cache miss should return: the reserved address, or null
      when the backend failed. */
  function Fallback(addr: Option<nat>): (ptr: nat)
    requires addr.Some? ==> addr.value != NULL
    ensures ptr == NULL <==> addr.None?
    ensures addr.Some? ==> ptr == addr.value
  {
    match addr
    case Some(a) => a
    case None => NULL
  }

  /** How a cache miss reports a failed reservation: as the source does, by
      passing `MAP_FAILED` through, or as `GlobalAlloc` requires, with null. */
  datatype Signal = PassMapFailed | ReturnNull

  /** The pointer a cache miss returns under the given way of reporting failure. */
  function MissPointer(addr: Option<nat>, signal: Signal): (ptr: nat)
    requires addr.Some? ==> addr.value != NULL
    ensures addr.Some? ==> ptr == addr.value
    ensures addr.None? ==> ptr == (if signal == PassMapFailed then MAP_FAILED else NULL)
  {
    match signal
    case PassMapFailed => FallbackAsWritten(addr)
    case ReturnNull => Fallback(addr)
  }
}
