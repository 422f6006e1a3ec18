/** Vertices in blocks of equal size, the last one cut off at the vertex count. */
module Blocks {
  import opened Bits

  /** The vertices of block coordinate `c`, for blocks of `size` and `n` vertices. */
  function From(c: nat, size: nat): nat {
    if c == 0 then 0 else From(c - 1, size) + size
  }

  function To(c: nat, size: nat, n: nat): int {
    Min(From(c + 1, size), n)
  }

  lemma {:induction false} FromIs(c: nat, size: nat)
    ensures From(c, size) == c * size
  {
    if c > 0 {
      FromIs(c - 1, size);
      assert (c - 1) * size == c * size - size;
    }
  }

  method Bounds(c: nat, size: nat, n: nat) returns (start: nat, end: int)
    ensures start == From(c, size) && end == To(c, size, n)
    ensures start == c * size && end == if (c + 1) * size > n then n else (c + 1) * size
  {
    FromIs(c, size);
    FromIs(c + 1, size);
    start, end := c * size, (c + 1) * size;
    if end > n {
      end := n;
    }
  }
}
