/**
 * The sequences of calls the repository's test programs make, worked out
 * on the block view: the block sizes `adjust_size` gives their requests,
 * the heap each `mem_alloc` and `mem_free` leaves, and the block best fit
 * picks. A last scenario shows `mem_free` losing a block.
 */
module Scenarios {
  import opened Layout
  import opened Model

  /** Allocated block of `size` bytes. */
  function Taken(size: int): BlockInfo { BlockInfo(size, true) }

  /** Free block of `size` bytes. */
  function Hole(size: int): BlockInfo { BlockInfo(size, false) }

  /** The heap after the six requests of 100, 200, 150, 300, 50 and 170 bytes on a fresh heap. */
  function SixBlocks(): (v: seq<BlockInfo>)
    ensures v == [Taken(120), Taken(216), Taken(168), Taken(320), Taken(72), Taken(192)]
  {
    Grow(Grow(Grow(Grow(Grow(Grow([], 120), 216), 168), 320), 72), 192)
  }

  /** The block sizes `adjust_size` gives the test requests: payload rounded up to 8, plus 16. */
  lemma TestRequestSizes()
    ensures AdjustSize(100) == Some(120) && AdjustSize(200) == Some(216)
    ensures AdjustSize(150) == Some(168) && AdjustSize(300) == Some(320)
    ensures AdjustSize(50) == Some(72) && AdjustSize(170) == Some(192)
    ensures AdjustSize(60) == Some(80)
  {
  }

  /**
   * The best-fit test: after freeing the first, third and fifth blocks
   * none of them merges, the 60-byte request (an 80-byte block) fits best
   * in the 120-byte block, the smallest free block large enough, and that
   * block is split into 80 bytes in use and a free 40-byte rest.
   */
  lemma BestFitScenario()
    ensures Release(Release(Release(SixBlocks(), 0), 2), 4)
      == [Hole(120), Taken(216), Hole(168), Taken(320), Hole(72), Taken(192)]
    ensures var v := Release(Release(Release(SixBlocks(), 0), 2), 4);
      forall j :: 0 <= j < |v| && !v[j].inUse && v[j].size >= 80 ==> v[0].size <= v[j].size
    ensures Place([Hole(120), Taken(216), Hole(168), Taken(320), Hole(72), Taken(192)], 0, 80)
      == [Taken(80), Hole(40), Taken(216), Hole(168), Taken(320), Hole(72), Taken(192)]
  {
    var v := SixBlocks();
    var v1 := Release(v, 0);
    assert v1 == [Hole(120), Taken(216), Taken(168), Taken(320), Taken(72), Taken(192)];
    var v2 := Release(v1, 2);
    assert v2 == [Hole(120), Taken(216), Hole(168), Taken(320), Taken(72), Taken(192)];
    var v3 := Release(v2, 4);
    assert v3 == [Hole(120), Taken(216), Hole(168), Taken(320), Hole(72), Taken(192)];
  }

  /**
   * The coalescing test: freeing b, a, d, e, c in turn merges a with b,
   * then d with e, then both runs around c into one block in front of f.
   */
  lemma CoalescingScenario()
    ensures Release(SixBlocks(), 1) == [Taken(120), Hole(216), Taken(168), Taken(320), Taken(72), Taken(192)]
    ensures Release(Release(SixBlocks(), 1), 0) == [Hole(336), Taken(168), Taken(320), Taken(72), Taken(192)]
    ensures Release(Release(Release(SixBlocks(), 1), 0), 2) == [Hole(336), Taken(168), Hole(320), Taken(72), Taken(192)]
    ensures Release(Release(Release(Release(SixBlocks(), 1), 0), 2), 3) == [Hole(336), Taken(168), Hole(392), Taken(192)]
    ensures Release(Release(Release(Release(Release(SixBlocks(), 1), 0), 2), 3), 1) == [Hole(896), Taken(192)]
  {
    var v1 := Release(SixBlocks(), 1);
    assert v1 == [Taken(120), Hole(216), Taken(168), Taken(320), Taken(72), Taken(192)];
    var v2 := Release(v1, 0);
    assert v2 == [Hole(336), Taken(168), Taken(320), Taken(72), Taken(192)];
    var v3 := Release(v2, 2);
    assert v3 == [Hole(336), Taken(168), Hole(320), Taken(72), Taken(192)];
    var v4 := Release(v3, 3);
    assert v4 == [Hole(336), Taken(168), Hole(392), Taken(192)];
    var v5 := Release(v4, 1);
    assert v5 == [Hole(896), Taken(192)];
  }

  /**
   * Freeing c and then b: b's left neighbour is in use and its right
   * neighbour, c, is free and not the last block, so `mem_free` merges b
   * with c and leaves the merged block off the free list.
   */
  lemma LostBlockScenario()
    ensures Release(SixBlocks(), 2) == [Taken(120), Taken(216), Hole(168), Taken(320), Taken(72), Taken(192)]
    ensures Loses(Release(SixBlocks(), 2), 1)
    ensures Release(Release(SixBlocks(), 2), 1) == [Taken(120), Hole(384), Taken(320), Taken(72), Taken(192)]
  {
    var v1 := Release(SixBlocks(), 2);
    assert v1 == [Taken(120), Taken(216), Hole(168), Taken(320), Taken(72), Taken(192)];
    LostBlock(v1, 1);
  }
}
