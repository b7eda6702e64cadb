/** Fresh node numbers for virtual nodes. */
module Allocator {

  /** The first number at or above `c` that `used` does not hold: the
      scan upward from the counter that allocates a virtual node. */
  function FirstFree(used: set<int>, c: int): (r: int)
    ensures r >= c && r !in used
    ensures forall k :: c <= k < r ==> k in used
    decreases |set x | x in used && x >= c|
  {
    if c !in used then c
    else
      assert (set x | x in used && x >= c) == (set x | x in used && x >= c + 1) + {c};
      FirstFree(used, c + 1)
  }
}
