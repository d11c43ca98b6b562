/** A `Block` is the allocator's record of one memory region: its start
    address and its length in bytes. The same pair also describes the regions
    handed out to callers and the regions the page backend maps and unmaps. */
module Blocks {

  datatype Block = Block(ptr: nat, size: nat) {

    /** One past the last byte of the region. */
    function End(): nat {
      ptr + size
    }
  }

  /** The two regions share no byte. */
  predicate Disjoint(a: Block, b: Block) {
    a.End() <= b.ptr || b.End() <= a.ptr
  }

  /** Every byte of `inner` is a byte of `outer`. */
  predicate Within(inner: Block, outer: Block) {
    outer.ptr <= inner.ptr && inner.End() <= outer.End()
  }

  /** No two entries of `s` (at different positions) overlap. */
  predicate PairwiseDisjoint(s: seq<Block>) {
    forall i, j :: 0 <= i < |s| && 0 <= j < |s| && i != j ==> Disjoint(s[i], s[j])
  }

  /** `b` overlaps no entry of `s`. */
  predicate DisjointFromAll(b: Block, s: seq<Block>) {
    forall k :: 0 <= k < |s| ==> Disjoint(b, s[k])
  }

  /** Total number of bytes described by `s`. */
  function Bytes(s: seq<Block>): nat {
    if |s| == 0 then 0 else Bytes(s[..|s| - 1]) + s[|s| - 1].size
  }

  /** Replacing one entry changes the total by exactly the difference in size. */
  lemma {:induction false} BytesUpdate(s: seq<Block>, i: nat, b: Block)
    requires i < |s|
    ensures Bytes(s[i := b]) + s[i].size == Bytes(s) + b.size
  {
    var n := |s| - 1;
    if i == n {
      assert s[i := b][..n] == s[..n];
    } else {
      assert s[i := b][..n] == s[..n][i := b];
      BytesUpdate(s[..n], i, b);
    }
  }

  /** Removing the last entry takes away exactly its size. */
  lemma BytesDropLast(s: seq<Block>)
    requires |s| > 0
    ensures Bytes(s[..|s| - 1]) + s[|s| - 1].size == Bytes(s)
  {
  }

  /** A region inside `outer` overlaps nothing that `outer` does not overlap. */
  lemma WithinDisjoint(inner: Block, outer: Block, other: Block)
    requires Within(inner, outer)
    requires Disjoint(outer, other)
    ensures Disjoint(inner, other) && Disjoint(other, inner)
  {
  }

  /** Cutting the first `n` bytes off `b`: the front piece (what a caller
      receives) and the remainder (what stays cached). */
  function Split(b: Block, n: nat): (pieces: (Block, Block))
    requires n <= b.size
    ensures pieces.0.ptr == b.ptr && pieces.0.size == n
    ensures pieces.0.End() == pieces.1.ptr && pieces.1.End() == b.End()
    ensures Disjoint(pieces.0, pieces.1)
    ensures Within(pieces.0, b) && Within(pieces.1, b)
    ensures pieces.0.size + pieces.1.size == b.size
  {
    (Block(b.ptr, n), Block(b.ptr + n, b.size - n))
  }
}
