/** The free-block cache shared by both revisions of the allocator
    (`InternalState`): a fixed-capacity array of `Option<Block>` slots and the
    number of occupied ones. The capacity is the length of the slot array
    (2048 in crates/benemalloc, 1024 in the older top-level crate). */
module FreeList {
  import opened Options
  import opened Blocks

  type Pos = n: nat | 0 < n witness 1

  /** The part of `std::alloc::Layout` the allocator reads. Rust guarantees
      `align` is a non-zero power of two; only non-zero matters here. */
  datatype Layout = Layout(size: nat, align: Pos)

  /** The test a cached block must pass to serve a request: the older
      revision checks the size only, the newer one also the alignment. */
  datatype Policy = SizeOnly | SizeAndAlign

  predicate Fits(b: Block, layout: Layout, policy: Policy) {
    b.size >= layout.size && (policy == SizeOnly || b.ptr % layout.align == 0)
  }

  /** `InternalState`: `count` is its `size` field, `slots` its `free_array`. */
  datatype FreeArray = FreeArray(count: nat, slots: seq<Option<Block>>)

  /** The representation invariant: the occupied slots are exactly `[0, count)`. */
  predicate Valid(fa: FreeArray) {
    && fa.count <= |fa.slots|
    && (forall k :: 0 <= k < fa.count ==> fa.slots[k].Some?)
    && (forall k :: fa.count <= k < |fa.slots| ==> fa.slots[k].None?)
  }

  /** `InternalState::new`: every slot empty. */
  function Empty(capacity: nat): (fa: FreeArray)
    ensures Valid(fa) && fa.count == 0 && |fa.slots| == capacity
    ensures forall k :: 0 <= k < capacity ==> fa.slots[k] == None
  {
    FreeArray(0, seq(capacity, _ => None))
  }

  /** The cached blocks, in slot order. */
  function Cached(fa: FreeArray): (s: seq<Block>)
    requires Valid(fa)
    ensures |s| == fa.count
    ensures forall k :: 0 <= k < fa.count ==> fa.slots[k] == Some(s[k])
  {
    seq(fa.count, k requires 0 <= k < fa.count && Valid(fa) => fa.slots[k].value)
  }

  /** Total number of bytes held by the cache. */
  function TotalBytes(fa: FreeArray): nat
    requires Valid(fa)
  {
    Bytes(Cached(fa))
  }

  /** The cache never lets two cached blocks overlap. */
  predicate Sound(fa: FreeArray)
    requires Valid(fa)
  {
    PairwiseDisjoint(Cached(fa))
  }

  lemma CachedExt(fa: FreeArray, s: seq<Block>)
    requires Valid(fa) && |s| == fa.count
    requires forall k :: 0 <= k < fa.count ==> fa.slots[k] == Some(s[k])
    ensures Cached(fa) == s
  {
  }

  /** `InternalState::insert`: the block goes into slot `count` and `count`
      grows by one. The caller must leave room (the source indexes the array,
      which would panic on a full one). */
  function Insert(fa: FreeArray, b: Block): (r: FreeArray)
    requires fa.count < |fa.slots|
    ensures |r.slots| == |fa.slots| && r.count == fa.count + 1
    ensures r.slots[fa.count] == Some(b)
    ensures forall k :: 0 <= k < |fa.slots| && k != fa.count ==> r.slots[k] == fa.slots[k]
    ensures Valid(fa) ==> Valid(r) && Cached(r) == Cached(fa) + [b]
  {
    var r := FreeArray(fa.count + 1, fa.slots[fa.count := Some(b)]);
    if Valid(fa) then
      CachedExt(r, Cached(fa) + [b]);
      r
    else
      r
  }

  /** Swap-with-last removal of slot `i`: the last occupied block moves into
      slot `i`, the last occupied slot is cleared and `count` drops by one. */
  function SwapRemove(fa: FreeArray, i: nat): (r: FreeArray)
    requires Valid(fa) && i < fa.count
    ensures Valid(r) && |r.slots| == |fa.slots| && r.count == fa.count - 1
    ensures r.slots[fa.count - 1] == None
    ensures i < fa.count - 1 ==> r.slots[i] == fa.slots[fa.count - 1]
    ensures forall k :: 0 <= k < |fa.slots| && k != i && k != fa.count - 1 ==> r.slots[k] == fa.slots[k]
    ensures multiset(Cached(r)) == multiset(Cached(fa)) - multiset{Cached(fa)[i]}
    ensures TotalBytes(r) + Cached(fa)[i].size == TotalBytes(fa)
  {
    var last := fa.count - 1;
    var r := FreeArray(last, fa.slots[i := fa.slots[last]][last := None]);
    SwapRemoveCached(fa, i, r);
    r
  }

  lemma SwapRemoveCached(fa: FreeArray, i: nat, r: FreeArray)
    requires Valid(fa) && i < fa.count
    requires r == FreeArray(fa.count - 1, fa.slots[i := fa.slots[fa.count - 1]][fa.count - 1 := None])
    ensures Valid(r)
    ensures Cached(r) == Cached(fa)[i := Cached(fa)[fa.count - 1]][..fa.count - 1]
    ensures multiset(Cached(r)) == multiset(Cached(fa)) - multiset{Cached(fa)[i]}
    ensures Bytes(Cached(r)) + Cached(fa)[i].size == Bytes(Cached(fa))
  {
    var c := Cached(fa);
    var n := fa.count - 1;
    var t := c[i := c[n]];
    assert forall k :: 0 <= k < n ==> r.slots[k] == Some(t[k]);
    CachedExt(r, t[..n]);
    MultisetSwapDrop(c, i);
    BytesSwapDrop(c, i);
  }

  /** Overwriting entry `i` with the last one and dropping the last entry
      removes exactly one copy of the old entry `i`. */
  lemma MultisetSwapDrop(c: seq<Block>, i: nat)
    requires i < |c|
    ensures multiset(c[i := c[|c| - 1]][..|c| - 1]) == multiset(c) - multiset{c[i]}
  {
    var n := |c| - 1;
    var t := c[i := c[n]];
    assert t == t[..n] + [t[n]];
    assert multiset(t) == multiset(t[..n]) + multiset{c[n]};
    assert multiset(t) == multiset(c) - multiset{c[i]} + multiset{c[n]};
    assert multiset(t[..n]) == multiset(t) - multiset{c[n]};
  }

  lemma BytesSwapDrop(c: seq<Block>, i: nat)
    requires i < |c|
    ensures Bytes(c[i := c[|c| - 1]][..|c| - 1]) + c[i].size == Bytes(c)
  {
    var n := |c| - 1;
    var t := c[i := c[n]];
    BytesUpdate(c, i, c[n]);
    BytesDropLast(t);
  }

  /** Splitting slot `i` in place: the first `n` bytes leave the cache and
      the slot keeps the remainder; nothing else changes. */
  function Carve(fa: FreeArray, i: nat, n: nat): (r: FreeArray)
    requires Valid(fa) && i < fa.count && n < fa.slots[i].value.size
    ensures Valid(r) && |r.slots| == |fa.slots| && r.count == fa.count
    ensures r.slots[i] == Some(Split(fa.slots[i].value, n).1)
    ensures forall k :: 0 <= k < |fa.slots| && k != i ==> r.slots[k] == fa.slots[k]
    ensures Cached(r) == Cached(fa)[i := Split(fa.slots[i].value, n).1]
    ensures TotalBytes(r) + n == TotalBytes(fa)
  {
    var b := fa.slots[i].value;
    var rest := Split(b, n).1;
    var r := FreeArray(fa.count, fa.slots[i := Some(rest)]);
    CachedExt(r, Cached(fa)[i := rest]);
    BytesUpdate(Cached(fa), i, rest);
    r
  }

  /** What a cache hit of `n` bytes on slot `i` does to the cache in the
      newer revision: split a larger block, swap-remove an exact one. */
  function Take(fa: FreeArray, i: nat, n: nat): (r: FreeArray)
    requires Valid(fa) && i < fa.count && n <= fa.slots[i].value.size
    ensures Valid(r) && |r.slots| == |fa.slots|
    ensures TotalBytes(r) + n == TotalBytes(fa)
    ensures Sound(fa) ==> Sound(r) && DisjointFromAll(Block(fa.slots[i].value.ptr, n), Cached(r))
  {
    if fa.slots[i].value.size > n then
      var r := Carve(fa, i, n);
      CarveSound(fa, i, n, r);
      r
    else
      var r := SwapRemove(fa, i);
      SwapRemoveSound(fa, i, r);
      r
  }

  /** A split keeps the cache free of overlaps and hands out bytes no cached
      block still claims. */
  lemma CarveSound(fa: FreeArray, i: nat, n: nat, r: FreeArray)
    requires Valid(fa) && i < fa.count && n < fa.slots[i].value.size
    requires r == Carve(fa, i, n)
    ensures Sound(fa) ==> Sound(r) && DisjointFromAll(Block(fa.slots[i].value.ptr, n), Cached(r))
  {
    if !Sound(fa) {
      return;
    }
    var c := Cached(fa);
    var b := c[i];
    var pieces := Split(b, n);
    var c' := Cached(r);
    assert c' == c[i := pieces.1];
    forall k | 0 <= k < |c'| && k != i
      ensures Disjoint(pieces.1, c'[k]) && Disjoint(c'[k], pieces.1) && Disjoint(pieces.0, c'[k])
    {
      assert Disjoint(b, c[k]);
      WithinDisjoint(pieces.1, b, c[k]);
      WithinDisjoint(pieces.0, b, c[k]);
    }
  }

  /** Removing a block keeps the cache free of overlaps, and the removed
      block overlaps none of the blocks left behind. */
  lemma SwapRemoveSound(fa: FreeArray, i: nat, r: FreeArray)
    requires Valid(fa) && i < fa.count
    requires r == SwapRemove(fa, i)
    ensures Sound(fa) ==> Sound(r) && DisjointFromAll(Cached(fa)[i], Cached(r))
  {
    if !Sound(fa) {
      return;
    }
    var c := Cached(fa);
    var n := fa.count - 1;
    SwapRemoveCached(fa, i, r);
    var c' := Cached(r);
    assert forall k :: 0 <= k < n ==> c'[k] == c[if k == i then n else k];
  }

  /** Slot `i` holds a block that serves `layout` under `policy`. */
  predicate FitsAt(fa: FreeArray, i: nat, layout: Layout, policy: Policy)
    requires i < |fa.slots|
  {
    fa.slots[i].Some? && Fits(fa.slots[i].value, layout, policy)
  }

  /** First-fit from slot `from`: the lowest index in `[from, count)` whose
      slot serves the request, if any. */
  function FirstFitFrom(fa: FreeArray, layout: Layout, policy: Policy, from: nat): (r: Option<nat>)
    requires from <= fa.count <= |fa.slots|
    ensures r.Some? ==>
      && from <= r.value < fa.count
      && FitsAt(fa, r.value, layout, policy)
      && forall j :: from <= j < r.value ==> !FitsAt(fa, j, layout, policy)
    ensures r.None? ==> forall j :: from <= j < fa.count ==> !FitsAt(fa, j, layout, policy)
    decreases fa.count - from
  {
    if from == fa.count then None
    else if FitsAt(fa, from, layout, policy) then Some(from)
    else FirstFitFrom(fa, layout, policy, from + 1)
  }

  /** First-fit over the whole cache: the lowest occupied index whose block
      serves the request; none exactly when no occupied slot does. */
  function FirstFit(fa: FreeArray, layout: Layout, policy: Policy): (r: Option<nat>)
    requires fa.count <= |fa.slots|
    ensures r.Some? <==> exists j :: 0 <= j < fa.count && FitsAt(fa, j, layout, policy)
    ensures r.Some? ==>
      && r.value < fa.count
      && FitsAt(fa, r.value, layout, policy)
      && forall j :: 0 <= j < r.value ==> !FitsAt(fa, j, layout, policy)
  {
    FirstFitFrom(fa, layout, policy, 0)
  }

  /** The scan `for i in 0..freeblocks_size` of `alloc`: it stops at the
      first occupied slot whose block serves the request. */
  method FindFit(fa: FreeArray, layout: Layout, policy: Policy) returns (r: Option<nat>)
    requires fa.count <= |fa.slots|
    ensures r == FirstFit(fa, layout, policy)
  {
    var i := 0;
    while i < fa.count
      invariant i <= fa.count
      invariant forall j :: 0 <= j < i ==> !FitsAt(fa, j, layout, policy)
    {
      match fa.slots[i] {
        case Some(b) =>
          if Fits(b, layout, policy) {
            assert FitsAt(fa, i, layout, policy);
            return Some(i);
          }
        case None =>
      }
      i := i + 1;
    }
    return None;
  }
}
