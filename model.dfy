/**
 * The heap as its clients see it: the blocks of the arena in address
 * order, each with its byte size and whether it is in use. The effect of
 * `mem_free` and `mem_alloc` on this sequence is defined here as pure
 * functions, step by step in the order the C code takes them, and the
 * lemmas state what those steps amount to.
 */
module Model {
  import opened Layout

  /** One block: its size in bytes (header and footer included) and its allocation bit. */
  datatype BlockInfo = BlockInfo(size: int, inUse: bool)

  /** The bytes a block sequence spans. */
  function Total(v: seq<BlockInfo>): int
  {
    if v == [] then 0 else v[0].size + Total(v[1..])
  }

  /** The number of blocks in use. */
  function Used(v: seq<BlockInfo>): nat
  {
    if v == [] then 0 else (if v[0].inUse then 1 else 0) + Used(v[1..])
  }

  lemma {:induction false} TotalConcat(a: seq<BlockInfo>, b: seq<BlockInfo>)
    ensures Total(a + b) == Total(a) + Total(b)
    ensures Used(a + b) == Used(a) + Used(b)
  {
    if a == [] {
      assert a + b == b;
    } else {
      assert (a + b)[1..] == a[1..] + b;
      TotalConcat(a[1..], b);
    }
  }

  lemma TotalPair(x: BlockInfo, y: BlockInfo)
    ensures Total([x, y]) == x.size + y.size
    ensures Used([x, y]) == (if x.inUse then 1 else 0) + (if y.inUse then 1 else 0)
  {
    assert [x, y] == [x] + [y];
    TotalConcat([x], [y]);
    TotalSingle(x);
    TotalSingle(y);
  }

  lemma TotalSingle(x: BlockInfo)
    ensures Total([x]) == x.size
    ensures Used([x]) == if x.inUse then 1 else 0
  {
    assert [x][1..] == [];
  }

  /** The sums of a sequence with one block cut out, split around it. */
  lemma TotalAround(v: seq<BlockInfo>, lo: int, hi: int)
    requires 0 <= lo <= hi <= |v|
    ensures Total(v) == Total(v[..lo]) + Total(v[lo..hi]) + Total(v[hi..])
    ensures Used(v) == Used(v[..lo]) + Used(v[lo..hi]) + Used(v[hi..])
  {
    assert v == v[..lo] + v[lo..hi] + v[hi..];
    TotalConcat(v[..lo] + v[lo..hi], v[hi..]);
    TotalConcat(v[..lo], v[lo..hi]);
  }

  /** No two neighbouring blocks are both free: the heap `mem_free` keeps coalesced. */
  ghost predicate Coalesced(v: seq<BlockInfo>)
  {
    forall i :: 0 <= i < |v| - 1 ==> v[i].inUse || v[i + 1].inUse
  }

  /**
   * Blocks `i` and `i + 1` become one free block spanning both: the blocks
   * around them stay where they are and the heap keeps all its bytes.
   */
  function Join(v: seq<BlockInfo>, i: int): (r: seq<BlockInfo>)
    requires 0 <= i < |v| - 1
    ensures |r| == |v| - 1
  {
    v[..i] + [BlockInfo(v[i].size + v[i + 1].size, false)] + v[i + 2..]
  }

  /**
   * The two merges of `mem_free` around the free block `i`, in the C
   * order: it absorbs a free right neighbour unless it is the last block,
   * then a free left neighbour absorbs it unless it is the first.
   */
  function Coalesce(v: seq<BlockInfo>, i: int): (r: seq<BlockInfo>)
    requires 0 <= i < |v|
    ensures RunStart(v, i) < |r|
  {
    var right := MergeRight(v, i);
    if 0 < i && !v[i - 1].inUse then Join(right, i - 1) else right
  }

  /** The right merge alone: block `i` absorbs its right neighbour when that one is free. */
  function MergeRight(v: seq<BlockInfo>, i: int): (r: seq<BlockInfo>)
    requires 0 <= i < |v|
    ensures i < |r| && (0 < i ==> r[i - 1] == v[i - 1]) && (!v[i].inUse ==> !r[i].inUse)
  {
    if i + 1 < |v| && !v[i + 1].inUse then Join(v, i) else v
  }

  /**
   * `mem_free` on block `i`: the block is marked free, coalesced with its
   * free neighbours, and the resulting block is handed back to the system
   * when it is the last one.
   */
  function Release(v: seq<BlockInfo>, i: int): (r: seq<BlockInfo>)
    requires 0 <= i < |v|
    ensures |r| == |v| - (RunEnd(v, i) - RunStart(v, i)) - (if RunEnd(v, i) == |v| - 1 then 1 else 0)
    ensures r[..RunStart(v, i)] == v[..RunStart(v, i)]
    ensures RunEnd(v, i) < |v| - 1 ==>
      !r[RunStart(v, i)].inUse && r[RunStart(v, i) + 1..] == v[RunEnd(v, i) + 1..]
  {
    CoalesceShape(v, i, RunStart(v, i), RunEnd(v, i), v[i := BlockInfo(v[i].size, false)]);
    var left := Coalesce(v[i := BlockInfo(v[i].size, false)], i);
    var k := RunStart(v, i);
    if k == |left| - 1 then left[..k] else left
  }

  /**
   * `Release` read off the state `mem_free` reaches after its merges: the
   * coalesced sequence, cut at the merged block when that block is the
   * last one. The block is lost exactly when only the right merge happened
   * away from the first block and the merged block is not the last one.
   */
  lemma ReleaseSteps(v: seq<BlockInfo>, i: int, left: seq<BlockInfo>, k: int)
    requires 0 <= i < |v|
    requires left == Coalesce(v[i := BlockInfo(v[i].size, false)], i) && k == RunStart(v, i)
    ensures 0 <= k < |left|
    ensures Release(v, i) == if k == |left| - 1 then left[..k] else left
    ensures Loses(v, i) <==> 0 < i && i < RunEnd(v, i) && v[i - 1].inUse && k != |left| - 1
  {
  }

  /** The first block of the run `Release` merges: the left neighbour when it is free. */
  function RunStart(v: seq<BlockInfo>, i: int): int
    requires 0 <= i < |v|
  {
    if 0 < i && !v[i - 1].inUse then i - 1 else i
  }

  /** The last block of the run `Release` merges: the right neighbour when it is free. */
  function RunEnd(v: seq<BlockInfo>, i: int): int
    requires 0 <= i < |v|
  {
    if i + 1 < |v| && !v[i + 1].inUse then i + 1 else i
  }

  /**
   * What `mem_free` amounts to: the block and its free neighbours become a
   * single free block whose size is the sum of theirs, every other block
   * is kept in place, and that block is removed altogether when it is the
   * last block of the heap.
   */
  lemma ReleaseShape(v: seq<BlockInfo>, i: int, lo: int, hi: int)
    requires 0 <= i < |v| && lo == RunStart(v, i) && hi == RunEnd(v, i)
    ensures Release(v, i) == if hi == |v| - 1 then v[..lo]
      else v[..lo] + [BlockInfo(Total(v[lo..hi + 1]), false)] + v[hi + 1..]
  {
    CoalesceShape(v, i, lo, hi, v[i := BlockInfo(v[i].size, false)]);
  }

  /**
   * The two merges of `mem_free` on the cleared block `i`: the run `lo..hi`
   * of the block and its free neighbours becomes one free block of their
   * total size, and every other block keeps its place.
   */
  lemma CoalesceShape(v: seq<BlockInfo>, i: int, lo: int, hi: int, cleared: seq<BlockInfo>)
    requires 0 <= i < |v| && lo == RunStart(v, i) && hi == RunEnd(v, i)
    requires cleared == v[i := BlockInfo(v[i].size, false)]
    ensures Coalesce(cleared, i) == v[..lo] + [BlockInfo(Total(v[lo..hi + 1]), false)] + v[hi + 1..]
  {
    var right := if hi > i then Join(cleared, i) else cleared;
    RightStep(v, i, hi, cleared);
    LeftStep(v, i, right, lo, hi);
    assert MergeRight(cleared, i) == right;
  }

  /** The right merge of `Release`: the block and a free right neighbour become one free block. */
  lemma RightStep(v: seq<BlockInfo>, i: int, hi: int, cleared: seq<BlockInfo>)
    requires 0 <= i < |v| && hi == RunEnd(v, i) && cleared == v[i := BlockInfo(v[i].size, false)]
    ensures (if hi > i then Join(cleared, i) else cleared)
      == v[..i] + [BlockInfo(Total(v[i..hi + 1]), false)] + v[hi + 1..]
  {
    if hi > i {
      TotalPair(v[i], v[i + 1]);
      assert v[i..hi + 1] == [v[i], v[i + 1]];
    } else {
      TotalSingle(v[i]);
      assert v[i..hi + 1] == [v[i]];
    }
  }

  /** The left merge of `Release`: a free left neighbour absorbs the block the right merge left. */
  lemma LeftStep(v: seq<BlockInfo>, i: int, right: seq<BlockInfo>, lo: int, hi: int)
    requires 0 <= i < |v| && lo == RunStart(v, i) && hi == RunEnd(v, i)
    requires right == v[..i] + [BlockInfo(Total(v[i..hi + 1]), false)] + v[hi + 1..]
    ensures (if lo < i then Join(right, lo) else right)
      == v[..lo] + [BlockInfo(Total(v[lo..hi + 1]), false)] + v[hi + 1..]
  {
    if lo < i {
      assert v[lo..hi + 1] == [v[lo]] + v[i..hi + 1];
      TotalConcat([v[lo]], v[i..hi + 1]);
      TotalSingle(v[lo]);
      assert right[lo] == v[lo];
      assert right[..lo] == v[..lo];
      assert right[lo + 2..] == v[hi + 1..];
    }
  }

  /**
   * `mem_free` gives back to the system exactly the bytes of the block it
   * removes from the top, and nothing otherwise; it releases exactly one
   * block in use.
   */
  lemma ReleaseTotal(v: seq<BlockInfo>, i: int)
    requires 0 <= i < |v| && v[i].inUse
    ensures var lo, hi := RunStart(v, i), RunEnd(v, i);
      Total(Release(v, i)) == Total(v) - (if hi == |v| - 1 then Total(v[lo..]) else 0)
    ensures Used(Release(v, i)) == Used(v) - 1
  {
    RunUsed(v, i);
    ReleaseSums(v, i, RunStart(v, i), RunEnd(v, i), Release(v, i));
  }

  /** `ReleaseTotal` for the run `lo..hi` and the released heap `r`. */
  lemma ReleaseSums(v: seq<BlockInfo>, i: int, lo: int, hi: int, r: seq<BlockInfo>)
    requires 0 <= i < |v| && lo == RunStart(v, i) && hi == RunEnd(v, i) && r == Release(v, i)
    requires Used(v[lo..hi + 1]) == 1
    ensures Total(r) == Total(v) - (if hi == |v| - 1 then Total(v[lo..]) else 0)
    ensures Used(r) == Used(v) - 1
  {
    ReleaseShape(v, i, lo, hi);
    TotalAround(v, lo, hi + 1);
    if hi == |v| - 1 {
      assert v[hi + 1..] == [];
      assert v[lo..] == v[lo..hi + 1];
    } else {
      SpliceSums(v, lo, hi, BlockInfo(Total(v[lo..hi + 1]), false));
    }
  }

  /** Replacing the run `lo..hi` by one free block of its bytes keeps the bytes and drops its blocks in use. */
  lemma SpliceSums(v: seq<BlockInfo>, lo: int, hi: int, merged: BlockInfo)
    requires 0 <= lo <= hi < |v| && merged == BlockInfo(Total(v[lo..hi + 1]), false)
    ensures Total(v[..lo] + [merged] + v[hi + 1..]) == Total(v[..lo]) + Total(v[lo..hi + 1]) + Total(v[hi + 1..])
    ensures Used(v[..lo] + [merged] + v[hi + 1..]) == Used(v[..lo]) + Used(v[hi + 1..])
  {
    TotalConcat(v[..lo] + [merged], v[hi + 1..]);
    TotalConcat(v[..lo], [merged]);
    TotalSingle(merged);
  }

  /** The run `Release` merges holds exactly one block in use, the released one. */
  lemma RunUsed(v: seq<BlockInfo>, i: int)
    requires 0 <= i < |v| && v[i].inUse
    ensures Used(v[RunStart(v, i)..RunEnd(v, i) + 1]) == 1
  {
    var lo, hi := RunStart(v, i), RunEnd(v, i);
    var tail := v[i..hi + 1];
    assert v[lo..hi + 1] == v[lo..i] + tail;
    assert tail == [v[i]] + v[i + 1..hi + 1];
    TotalConcat(v[lo..i], tail);
    TotalConcat([v[i]], v[i + 1..hi + 1]);
    TotalSingle(v[i]);
    if lo < i {
      assert v[lo..i] == [v[i - 1]];
      TotalSingle(v[i - 1]);
    }
    if hi > i {
      assert v[i + 1..hi + 1] == [v[i + 1]];
      TotalSingle(v[i + 1]);
    }
  }

  /** On a coalesced heap, `mem_free` of a block in use leaves the heap coalesced. */
  lemma ReleaseCoalesced(v: seq<BlockInfo>, i: int)
    requires 0 <= i < |v| && v[i].inUse && Coalesced(v)
    ensures Coalesced(Release(v, i))
  {
    ReleaseShape(v, i, RunStart(v, i), RunEnd(v, i));
    RunCoalesced(v, i, Release(v, i));
  }

  /** The shape `ReleaseShape` gives is coalesced when `v` is and block `i` is in use. */
  lemma RunCoalesced(v: seq<BlockInfo>, i: int, r: seq<BlockInfo>)
    requires 0 <= i < |v| && v[i].inUse && Coalesced(v)
    requires var lo, hi := RunStart(v, i), RunEnd(v, i);
      r == if hi == |v| - 1 then v[..lo] else v[..lo] + [BlockInfo(Total(v[lo..hi + 1]), false)] + v[hi + 1..]
    ensures Coalesced(r)
  {
    var lo, hi := RunStart(v, i), RunEnd(v, i);
    if hi == |v| - 1 {
      forall j | 0 <= j < |r| - 1
        ensures r[j].inUse || r[j + 1].inUse
      {
        assert r[j] == v[j] && r[j + 1] == v[j + 1];
      }
    } else {
      assert lo > 0 ==> v[lo - 1].inUse by {
        if lo < i { assert !v[i - 1].inUse; } else if lo > 0 { assert !(!v[i - 1].inUse); }
      }
      assert v[hi + 1].inUse by {
        if hi > i { assert !v[i + 1].inUse; } else { assert !(!v[i + 1].inUse); }
      }
      SpliceCoalesced(v, lo, hi, BlockInfo(Total(v[lo..hi + 1]), false));
    }
  }

  /** Replacing a run of blocks between two blocks in use by one block keeps a heap coalesced. */
  lemma SpliceCoalesced(v: seq<BlockInfo>, lo: int, hi: int, b: BlockInfo)
    requires Coalesced(v) && 0 <= lo <= hi < |v| - 1
    requires (lo > 0 ==> v[lo - 1].inUse) && v[hi + 1].inUse
    ensures Coalesced(v[..lo] + [b] + v[hi + 1..])
  {
    var r := v[..lo] + [b] + v[hi + 1..];
    forall j | 0 <= j < |r| - 1
      ensures r[j].inUse || r[j + 1].inUse
    {
      if j < lo - 1 {
        assert r[j] == v[j] && r[j + 1] == v[j + 1];
      } else if j == lo - 1 {
        assert r[j] == v[lo - 1];
      } else if j == lo {
        assert r[j + 1] == v[hi + 1];
      } else {
        assert r[j] == v[j - lo + hi] && r[j + 1] == v[j + 1 - lo + hi];
      }
    }
  }

  /**
   * The case in which `mem_free` loses the block it frees: the free right
   * neighbour is absorbed, the left neighbour is in use, and the joined
   * block is not the last block. The joined block is taken off the list
   * before the left merge is tried and, that merge not happening, is never
   * put back on it.
   */
  ghost predicate Loses(v: seq<BlockInfo>, i: int): (b: bool)
    ensures b ==> 0 < i < |v| && i < |Release(v, i)| - 1 && !Release(v, i)[i].inUse && Release(v, i)[i - 1].inUse
  {
    if 0 < i && i + 2 < |v| && !v[i + 1].inUse && v[i - 1].inUse then LostInside(v, i); true else false
  }

  /** In the lost case the merged block stays free at `i`, after a block in use and before another block. */
  lemma LostInside(v: seq<BlockInfo>, i: int)
    requires 0 < i && i + 2 < |v| && !v[i + 1].inUse && v[i - 1].inUse
    ensures i < |Release(v, i)| - 1 && !Release(v, i)[i].inUse && Release(v, i)[i - 1].inUse
  {
    assert RunStart(v, i) == i && RunEnd(v, i) == i + 1;
    assert Release(v, i)[..i][i - 1] == v[..i][i - 1];
  }

  /** The lost block is still in the heap: free, in place of block `i`, spanning it and its right neighbour. */
  lemma LostBlock(v: seq<BlockInfo>, i: int)
    requires 0 <= i < |v| && Loses(v, i)
    ensures var r := Release(v, i);
      i < |r| && r[i] == BlockInfo(v[i].size + v[i + 1].size, false) && r[..i] == v[..i] && r[i + 1..] == v[i + 2..]
  {
    ReleaseShape(v, i, RunStart(v, i), RunEnd(v, i));
    assert v[i..i + 2] == [v[i], v[i + 1]];
    TotalPair(v[i], v[i + 1]);
  }

  /**
   * `mem_alloc` handing out the free block `i` for a request of `size`
   * bytes: when the rest would make a block of at least MIN_SIZE the block
   * is split into the allocated front and a free remainder, otherwise the
   * whole block is allocated.
   */
  function Place(v: seq<BlockInfo>, i: int, size: int): seq<BlockInfo>
    requires 0 <= i < |v|
  {
    if v[i].size - size >= MIN_SIZE then
      v[..i] + [BlockInfo(size, true), BlockInfo(v[i].size - size, false)] + v[i + 1..]
    else
      v[i := BlockInfo(v[i].size, true)]
  }

  /** `mem_alloc` growing the heap by one allocated block of `size` bytes. */
  function Grow(v: seq<BlockInfo>, size: int): seq<BlockInfo>
  {
    v + [BlockInfo(size, true)]
  }

  /**
   * Placing a request in a free block keeps every byte of the heap, adds
   * one block in use, and gives the request a block at least as large as
   * it asked for: exactly its size, or the whole block when the rest would
   * be smaller than MIN_SIZE.
   */
  lemma PlaceFits(v: seq<BlockInfo>, i: int, size: int)
    requires 0 <= i < |v| && !v[i].inUse && size <= v[i].size
    ensures var r := Place(v, i, size);
      && Total(r) == Total(v)
      && Used(r) == Used(v) + 1
      && r[i].inUse && r[i].size >= size
      && (r[i].size == size || r[i].size - size < MIN_SIZE)
      && r[..i] == v[..i]
  {
    var r := Place(v, i, size);
    assert v[i..i + 1] == [v[i]];
    TotalSingle(v[i]);
    if v[i].size - size >= MIN_SIZE {
      var pair := [BlockInfo(size, true), BlockInfo(v[i].size - size, false)];
      SpliceTotal(v, i, i + 1, pair);
      TotalPair(pair[0], pair[1]);
    } else {
      assert r == v[..i] + [r[i]] + v[i + 1..];
      SpliceTotal(v, i, i + 1, [r[i]]);
      TotalSingle(r[i]);
    }
  }

  /** Replacing the blocks `lo..hi` by `mid` changes the sums by the difference. */
  lemma SpliceTotal(v: seq<BlockInfo>, lo: int, hi: int, mid: seq<BlockInfo>)
    requires 0 <= lo <= hi <= |v|
    ensures Total(v[..lo] + mid + v[hi..]) == Total(v) - Total(v[lo..hi]) + Total(mid)
    ensures Used(v[..lo] + mid + v[hi..]) == Used(v) - Used(v[lo..hi]) + Used(mid)
  {
    TotalAround(v, lo, hi);
    TotalConcat(v[..lo] + mid, v[hi..]);
    TotalConcat(v[..lo], mid);
  }

  /** Placing a request in a free block of a coalesced heap leaves it coalesced. */
  lemma PlaceCoalesced(v: seq<BlockInfo>, i: int, size: int)
    requires 0 <= i < |v| && !v[i].inUse && Coalesced(v)
    ensures Coalesced(Place(v, i, size))
  {
    var r := Place(v, i, size);
    if v[i].size - size >= MIN_SIZE {
      forall j | 0 <= j < |r| - 1
        ensures r[j].inUse || r[j + 1].inUse
      {
        if j < i {
          assert r[j] == v[j];
        } else if j == i {
          assert r[j].inUse;
        } else if j == i + 1 {
          assert r[j + 1] == v[i + 1];
        } else {
          assert r[j] == v[j - 1] && r[j + 1] == v[j];
        }
      }
    } else {
      forall j | 0 <= j < |r| - 1
        ensures r[j].inUse || r[j + 1].inUse
      {
        if j != i && j + 1 != i {
          assert r[j] == v[j] && r[j + 1] == v[j + 1];
        }
      }
    }
  }

  /** Growing the heap adds exactly the block's bytes and one block in use, and keeps it coalesced. */
  lemma GrowFits(v: seq<BlockInfo>, size: int)
    ensures Total(Grow(v, size)) == Total(v) + size
    ensures Used(Grow(v, size)) == Used(v) + 1
    ensures Coalesced(v) ==> Coalesced(Grow(v, size))
  {
    TotalConcat(v, [BlockInfo(size, true)]);
    TotalSingle(BlockInfo(size, true));
  }
}
