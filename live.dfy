// Which payloads are handed out, and the guarantee that one call of the
// allocator leaves every other handed-out payload alone: same start, same
// header, still in use.

module Liveness {
  import opened Layout
  import opened Model
  import opened Arena
  import opened FreeList
  import opened Steps

  /** The payload `q` belongs to a block of `bs` that is in use. */
  ghost predicate LiveIn(mem: seq<int>, bs: seq<int>, q: int)
  {
    0 < q < |mem| && q - 1 in bs && IsAllocated(mem[q - 1])
  }

  /** Every payload in use in `m0` is still in use in `m1`, under the same header. */
  ghost predicate KeepsLive(m0: seq<int>, bs0: seq<int>, m1: seq<int>, bs1: seq<int>)
  {
    forall q :: LiveIn(m0, bs0, q) ==> LiveIn(m1, bs1, q) && m1[q - 1] == m0[q - 1]
  }

  /** A payload in use is the block of the view it starts, and that block is in use. */
  lemma LiveEntry(mem: seq<int>, bs: seq<int>, q: int) returns (j: int)
    requires Tiled(mem, bs) && LiveIn(mem, bs, q)
    ensures 0 <= j < |bs| && bs[j] == q - 1 && View(mem, bs)[j] == Info(mem, q - 1)
    ensures View(mem, bs)[j].inUse
  {
    j := IndexIn(bs, q - 1);
  }

  /** Conversely, every block of the view in use has its payload in use. */
  lemma EntryLive(mem: seq<int>, bs: seq<int>, j: int)
    requires Tiled(mem, bs) && 0 <= j < |bs| && View(mem, bs)[j].inUse
    ensures LiveIn(mem, bs, bs[j] + 1)
  {
    BlockIn(mem, bs, j);
    assert View(mem, bs)[j] == Info(mem, bs[j]);
  }

  /** Two header words with the same size and status are the same word. */
  lemma SameInfo(mem: seq<int>, m: seq<int>, a: int, b: int)
    requires 0 <= a < |mem| && 0 <= b < |m| && Info(mem, a) == Info(m, b)
    ensures mem[a] == m[b]
  {
  }

  /**
   * `mem_alloc` placing a request in the free block `i` leaves every other
   * block where it is, so every payload in use stays in use with its size;
   * here the request takes the block whole and the starts are kept.
   */
  lemma PlaceKeepsLive(m0: seq<int>, bs: seq<int>, m1: seq<int>, i: int, size: int)
    requires Tiled(m0, bs) && Tiled(m1, bs) && 0 <= i < |bs| && !View(m0, bs)[i].inUse
    requires View(m1, bs) == Place(View(m0, bs), i, size)
    ensures KeepsLive(m0, bs, m1, bs)
  {
    forall q | LiveIn(m0, bs, q)
      ensures LiveIn(m1, bs, q) && m1[q - 1] == m0[q - 1]
    {
      var j := LiveEntry(m0, bs, q);
      assert View(m1, bs)[j] == View(m0, bs)[j];
      EntryLive(m1, bs, j);
      SameInfo(m0, m1, q - 1, q - 1);
    }
  }

  /** `PlaceKeepsLive` when the block is split: the rest `r` is a new block right after `i`. */
  lemma SplitKeepsLive(m0: seq<int>, bs0: seq<int>, m1: seq<int>, bs1: seq<int>, i: int, size: int, r: int)
    requires Tiled(m0, bs0) && Tiled(m1, bs1) && 0 <= i < |bs0| && !View(m0, bs0)[i].inUse
    requires View(m1, bs1) == Place(View(m0, bs0), i, size)
    requires bs1 == bs0[..i + 1] + [r] + bs0[i + 1..]
    ensures KeepsLive(m0, bs0, m1, bs1)
  {
    forall q | LiveIn(m0, bs0, q)
      ensures LiveIn(m1, bs1, q) && m1[q - 1] == m0[q - 1]
    {
      var j := LiveEntry(m0, bs0, q);
      var k := if j > i then j + 1 else j;
      assert bs1[k] == bs0[j];
      assert View(m1, bs1)[k] == View(m0, bs0)[j];
      EntryLive(m1, bs1, k);
      SameInfo(m0, m1, q - 1, q - 1);
    }
  }

  /** Growing the heap by a block at its top keeps every payload in use. */
  lemma GrowKeepsLive(m0: seq<int>, bs0: seq<int>, m1: seq<int>, bs1: seq<int>, size: int)
    requires Tiled(m0, bs0) && Tiled(m1, bs1)
    requires View(m1, bs1) == Grow(View(m0, bs0), size) && bs1 == bs0 + [|m0|]
    ensures KeepsLive(m0, bs0, m1, bs1)
  {
    forall q | LiveIn(m0, bs0, q)
      ensures LiveIn(m1, bs1, q) && m1[q - 1] == m0[q - 1]
    {
      var j := LiveEntry(m0, bs0, q);
      assert bs1[j] == bs0[j];
      assert View(m1, bs1)[j] == View(m0, bs0)[j];
      EntryLive(m1, bs1, j);
      SameInfo(m0, m1, q - 1, q - 1);
    }
  }

  /** Every payload in use in `m0` other than `x` is still in use in `m1`, under the same header. */
  ghost predicate KeepsLiveBut(m0: seq<int>, bs0: seq<int>, m1: seq<int>, bs1: seq<int>, x: int)
  {
    forall q :: q != x && LiveIn(m0, bs0, q) ==> LiveIn(m1, bs1, q) && m1[q - 1] == m0[q - 1]
  }

  /** Two steps that each keep the payloads in use keep them together. */
  lemma KeepsChain(m0: seq<int>, bs0: seq<int>, m1: seq<int>, bs1: seq<int>, m2: seq<int>, bs2: seq<int>)
    requires KeepsLive(m0, bs0, m1, bs1) && KeepsLive(m1, bs1, m2, bs2)
    ensures KeepsLive(m0, bs0, m2, bs2)
  {
  }

  /** A step that keeps all payloads but `x`, then one that keeps all, keep all but `x`. */
  lemma KeepsButChain(m0: seq<int>, bs0: seq<int>, m1: seq<int>, bs1: seq<int>, m2: seq<int>, bs2: seq<int>, x: int)
    requires KeepsLiveBut(m0, bs0, m1, bs1, x) && KeepsLive(m1, bs1, m2, bs2)
    ensures KeepsLiveBut(m0, bs0, m2, bs2, x)
  {
  }

  /** A step that keeps all payloads, then one that keeps all but `x`, keep all but `x`. */
  lemma KeepsThenBut(m0: seq<int>, bs0: seq<int>, m1: seq<int>, bs1: seq<int>, m2: seq<int>, bs2: seq<int>, x: int)
    requires KeepsLive(m0, bs0, m1, bs1) && KeepsLiveBut(m1, bs1, m2, bs2, x)
    ensures KeepsLiveBut(m0, bs0, m2, bs2, x)
  {
  }

  /** Rewriting words other than tags leaves the view, hence every payload in use, as it was. */
  lemma SameViewKeepsLive(m0: seq<int>, bs: seq<int>, m1: seq<int>)
    requires Tiled(m0, bs) && Tiled(m1, bs) && View(m1, bs) == View(m0, bs)
    ensures KeepsLive(m0, bs, m1, bs)
  {
    forall q | LiveIn(m0, bs, q)
      ensures LiveIn(m1, bs, q) && m1[q - 1] == m0[q - 1]
    {
      var j := LiveEntry(m0, bs, q);
      EntryLive(m1, bs, j);
      SameInfo(m0, m1, q - 1, q - 1);
    }
  }

  /** Marking block `i` free keeps every other payload in use. */
  lemma ClearKeepsLive(m0: seq<int>, bs: seq<int>, m1: seq<int>, i: int)
    requires Tiled(m0, bs) && Tiled(m1, bs) && 0 <= i < |bs|
    requires View(m1, bs) == View(m0, bs)[i := BlockInfo(View(m0, bs)[i].size, false)]
    ensures KeepsLiveBut(m0, bs, m1, bs, bs[i] + 1)
  {
    forall q | q != bs[i] + 1 && LiveIn(m0, bs, q)
      ensures LiveIn(m1, bs, q) && m1[q - 1] == m0[q - 1]
    {
      var j := LiveEntry(m0, bs, q);
      assert j != i;
      EntryLive(m1, bs, j);
      SameInfo(m0, m1, q - 1, q - 1);
    }
  }

  /**
   * Joining the free blocks `i` and `i + 1` into one drops the start of
   * block `i + 1` and keeps every block in use where it is.
   */
  lemma JoinKeepsLive(m0: seq<int>, bs0: seq<int>, m1: seq<int>, bs1: seq<int>, i: int)
    requires Tiled(m0, bs0) && Tiled(m1, bs1) && 0 <= i < |bs0| - 1
    requires !View(m0, bs0)[i].inUse && !View(m0, bs0)[i + 1].inUse
    requires View(m1, bs1) == Join(View(m0, bs0), i) && bs1 == bs0[..i + 1] + bs0[i + 2..]
    ensures KeepsLive(m0, bs0, m1, bs1)
  {
    forall q | LiveIn(m0, bs0, q)
      ensures LiveIn(m1, bs1, q) && m1[q - 1] == m0[q - 1]
    {
      var j := LiveEntry(m0, bs0, q);
      var k := if j < i then j else j - 1;
      assert bs1[k] == bs0[j];
      assert View(m1, bs1)[k] == View(m0, bs0)[j];
      EntryLive(m1, bs1, k);
      SameInfo(m0, m1, q - 1, q - 1);
    }
  }

  /** Handing the free block `k` back to the system when it is the last one keeps every block in use. */
  lemma SettleKeepsLive(m0: seq<int>, bs0: seq<int>, m1: seq<int>, bs1: seq<int>, k: int)
    requires Tiled(m0, bs0) && Tiled(m1, bs1) && 0 <= k < |bs0| && !View(m0, bs0)[k].inUse
    requires View(m1, bs1) == if k == |bs0| - 1 then View(m0, bs0)[..k] else View(m0, bs0)
    requires bs1 == if k == |bs0| - 1 then bs0[..k] else bs0
    ensures KeepsLive(m0, bs0, m1, bs1)
  {
    forall q | LiveIn(m0, bs0, q)
      ensures LiveIn(m1, bs1, q) && m1[q - 1] == m0[q - 1]
    {
      var j := LiveEntry(m0, bs0, q);
      assert bs1[j] == bs0[j];
      assert View(m1, bs1)[j] == View(m0, bs0)[j];
      EntryLive(m1, bs1, j);
      SameInfo(m0, m1, q - 1, q - 1);
    }
  }

  /** Two different payloads in use belong to blocks that do not overlap. */
  lemma LiveApart(mem: seq<int>, bs: seq<int>, p: int, q: int)
    requires Tiled(mem, bs) && LiveIn(mem, bs, p) && LiveIn(mem, bs, q) && p != q
    ensures End(mem, p - 1) <= q - 1 || End(mem, q - 1) <= p - 1
  {
    var i := LiveEntry(mem, bs, p);
    var j := LiveEntry(mem, bs, q);
    if i < j {
      Ordered(mem, bs, i, j);
    } else {
      Ordered(mem, bs, j, i);
    }
  }

  /**
   * Words strictly inside the payload `q` are nobody's tag and nobody's
   * link: rewriting any of them (as `memset` and `memcpy` do) keeps the
   * heap fit, the view, every payload in use and a complete list complete.
   */
  lemma PayloadKept(m0: seq<int>, bs: seq<int>, F: seq<int>, head: int, q: int, lo: int, hi: int, m1: seq<int>)
    requires Fit(m0, bs, F, head) && LiveIn(m0, bs, q)
    requires q <= lo <= hi <= End(m0, q - 1) - 1
    requires |m1| == |m0| && forall x :: 0 <= x < |m0| && !(lo <= x < hi) ==> m1[x] == m0[x]
    ensures Fit(m1, bs, F, head) && View(m1, bs) == View(m0, bs) && KeepsLive(m0, bs, m1, bs)
    ensures AllFreeListed(m0, bs, F) ==> AllFreeListed(m1, bs, F)
  {
    var j := LiveEntry(m0, bs, q);
    forall k | 0 <= k < |bs|
      ensures BlockAt(m0, bs[k]) && bs[k] + 4 <= End(m0, bs[k]) <= |m0|
      ensures k != j ==> End(m0, bs[k]) <= lo || hi <= bs[k]
    {
      BlockIn(m0, bs, k);
      if k < j {
        Ordered(m0, bs, k, j);
      } else if j < k {
        Ordered(m0, bs, j, k);
      }
    }
    forall k | 0 <= k < |bs|
      ensures m1[bs[k]] == m0[bs[k]] && m1[End(m0, bs[k]) - 1] == m0[End(m0, bs[k]) - 1]
    {
    }
    TiledFrame(m0, m1, bs);
    assert SameTags(m0, m1, bs);
    SameTagsView(m0, m1, bs);
    forall x | x in F
      ensures x + 2 < |m1| && m1[x + 1] == m0[x + 1] && m1[x + 2] == m0[x + 2]
    {
      var k := IndexIn(bs, x);
      assert k != j;
    }
    ListFrame(m0, m1, F, head);
    SameViewKeepsLive(m0, bs, m1);
  }
  /** The block at `y` of the tiling `bs` is free and off the list `F`. */
  ghost predicate Unlisted(m: seq<int>, bs: seq<int>, F: seq<int>, y: int)
  {
    y in bs && 0 <= y < |m| && !IsAllocated(m[y]) && y !in F
  }

  /**
   * Every free block of `(m1, bs1)` that is off the list `F1` was already a
   * block of `(m0, bs0)`, free under the same header and off the list `F0`:
   * a step that keeps this takes no free block off the list.
   */
  ghost predicate KeepsListed(m0: seq<int>, bs0: seq<int>, F0: seq<int>, m1: seq<int>, bs1: seq<int>, F1: seq<int>)
  {
    forall y {:trigger Unlisted(m1, bs1, F1, y)} :: Unlisted(m1, bs1, F1, y) ==> Unlisted(m0, bs0, F0, y) && m0[y] == m1[y]
  }

  /** A step that changes nothing takes no free block off the list. */
  lemma KeepsListedSame(m: seq<int>, bs: seq<int>, F: seq<int>)
    ensures KeepsListed(m, bs, F, m, bs, F)
  {
  }

  /** Two steps that each take no free block off the list take none together. */
  lemma KeepsListedChain(m0: seq<int>, bs0: seq<int>, F0: seq<int>, m1: seq<int>, bs1: seq<int>, F1: seq<int>,
                         m2: seq<int>, bs2: seq<int>, F2: seq<int>)
    requires KeepsListed(m0, bs0, F0, m1, bs1, F1) && KeepsListed(m1, bs1, F1, m2, bs2, F2)
    ensures KeepsListed(m0, bs0, F0, m2, bs2, F2)
  {
  }

  /** Growing the heap by a block in use at its top takes no free block off the list. */
  lemma GrowKeepsListed(m0: seq<int>, bs0: seq<int>, m1: seq<int>, bs1: seq<int>, F: seq<int>, size: int)
    requires Tiled(m0, bs0) && Tiled(m1, bs1)
    requires View(m1, bs1) == Grow(View(m0, bs0), size) && bs1 == bs0 + [|m0|]
    ensures KeepsListed(m0, bs0, F, m1, bs1, F)
  {
    forall y | Unlisted(m1, bs1, F, y)
      ensures Unlisted(m0, bs0, F, y) && m0[y] == m1[y]
    {
      var j := IndexIn(bs1, y);
      assert View(m1, bs1)[j] == Info(m1, y);
      assert j < |bs0| && bs0[j] == y;
      assert View(m1, bs1)[j] == View(m0, bs0)[j];
      BlockIn(m0, bs0, j);
      SameInfo(m0, m1, y, y);
    }
  }

  /** Taking the free block `i` whole marks it in use and leaves every other block as it was. */
  lemma MarkKeepsListed(m0: seq<int>, bs: seq<int>, m1: seq<int>, F: seq<int>, i: int, size: int)
    requires Tiled(m0, bs) && Tiled(m1, bs) && 0 <= i < |bs| && View(m0, bs)[i].size - size < MIN_SIZE
    requires View(m1, bs) == Place(View(m0, bs), i, size)
    ensures KeepsListed(m0, bs, F, m1, bs, F)
  {
    forall y | Unlisted(m1, bs, F, y)
      ensures Unlisted(m0, bs, F, y) && m0[y] == m1[y]
    {
      var j := IndexIn(bs, y);
      assert View(m1, bs)[j] == Info(m1, y);
      assert View(m1, bs)[j] == View(m0, bs)[j];
      BlockIn(m0, bs, j);
      SameInfo(m0, m1, y, y);
    }
  }

  /**
   * Splitting the free block `i` marks its front in use and lists the rest
   * `r`, a new block right after it; every other block is as it was.
   */
  lemma SplitKeepsListed(m0: seq<int>, bs0: seq<int>, m1: seq<int>, bs1: seq<int>, F: seq<int>, i: int, size: int, r: int)
    requires Tiled(m0, bs0) && Tiled(m1, bs1) && 0 <= i < |bs0| && View(m0, bs0)[i].size - size >= MIN_SIZE
    requires View(m1, bs1) == Place(View(m0, bs0), i, size)
    requires bs1 == bs0[..i + 1] + [r] + bs0[i + 1..]
    ensures KeepsListed(m0, bs0, F, m1, bs1, [r] + F)
  {
    forall y | Unlisted(m1, bs1, [r] + F, y)
      ensures Unlisted(m0, bs0, F, y) && m0[y] == m1[y]
    {
      var j := IndexIn(bs1, y);
      assert View(m1, bs1)[j] == Info(m1, y);
      assert j != i && j != i + 1;
      var k := if j < i then j else j - 1;
      assert bs1[j] == bs0[k];
      assert View(m1, bs1)[j] == View(m0, bs0)[k];
      BlockIn(m0, bs0, k);
      SameInfo(m0, m1, y, y);
    }
  }

  /**
   * `free_list_remove` of the block `b`, then a step that marks `b` in use
   * and takes no free block off the list: together they take none off
   * either, since the only block the removal unlisted is in use.
   */
  lemma UnlistKeepsListed(m0: seq<int>, bs: seq<int>, F0: seq<int>, m1: seq<int>, F1: seq<int>,
                          m2: seq<int>, bs2: seq<int>, F2: seq<int>, b: int)
    requires Tiled(m0, bs) && Tiled(m1, bs) && View(m1, bs) == View(m0, bs)
    requires forall y :: y in F0 && y != b ==> y in F1
    requires KeepsListed(m1, bs, F1, m2, bs2, F2) && 0 <= b < |m2| && IsAllocated(m2[b])
    ensures KeepsListed(m0, bs, F0, m2, bs2, F2)
  {
    forall y | Unlisted(m2, bs2, F2, y)
      ensures Unlisted(m0, bs, F0, y) && m0[y] == m2[y]
    {
      assert Unlisted(m1, bs, F1, y);
      var j := IndexIn(bs, y);
      assert View(m1, bs)[j] == View(m0, bs)[j];
      BlockIn(m0, bs, j);
      BlockIn(m1, bs, j);
      SameInfo(m0, m1, y, y);
    }
  }

  /**
   * The free neighbours of the block at `p` stay on the list across a step
   * that keeps `p`'s header and takes no free block off the list: a free
   * neighbour afterwards off the list would have been the same neighbour,
   * free and off the list, before.
   */
  lemma NeighboursKept(m0: seq<int>, bs0: seq<int>, F0: seq<int>, m1: seq<int>, bs1: seq<int>, F1: seq<int>, p: int)
    requires Tiled(m0, bs0) && Tiled(m1, bs1) && p in bs0 && p in bs1
    requires 0 <= p < |m0| && 0 <= p < |m1| && m1[p] == m0[p]
    requires KeepsListed(m0, bs0, F0, m1, bs1, F1)
    requires NeighboursListed(m0, bs0, F0, IndexOf(bs0, p))
    ensures NeighboursListed(m1, bs1, F1, IndexOf(bs1, p))
  {
    RightStaysListed(m0, bs0, F0, m1, bs1, F1, p);
    LeftStaysListed(m0, bs0, F0, m1, bs1, F1, p);
  }

  /** The right half of `NeighboursKept`. */
  lemma RightStaysListed(m0: seq<int>, bs0: seq<int>, F0: seq<int>, m1: seq<int>, bs1: seq<int>, F1: seq<int>, p: int)
    requires Tiled(m0, bs0) && Tiled(m1, bs1) && p in bs0 && p in bs1
    requires 0 <= p < |m0| && 0 <= p < |m1| && m1[p] == m0[p]
    requires KeepsListed(m0, bs0, F0, m1, bs1, F1)
    requires NeighboursListed(m0, bs0, F0, IndexOf(bs0, p))
    ensures var i1 := IndexOf(bs1, p); 0 <= i1 + 1 < |bs1| ==> !Unlisted(m1, bs1, F1, bs1[i1 + 1])
  {
    var i0, i1 := IndexOf(bs0, p), IndexOf(bs1, p);
    if 0 <= i1 + 1 < |bs1| && Unlisted(m1, bs1, F1, bs1[i1 + 1]) {
      RightKept(m0, bs0, F0, m1, bs1, F1, i0, i1);
      assert false;
    }
  }

  /** The left half of `NeighboursKept`. */
  lemma LeftStaysListed(m0: seq<int>, bs0: seq<int>, F0: seq<int>, m1: seq<int>, bs1: seq<int>, F1: seq<int>, p: int)
    requires Tiled(m0, bs0) && Tiled(m1, bs1) && p in bs0 && p in bs1
    requires KeepsListed(m0, bs0, F0, m1, bs1, F1)
    requires NeighboursListed(m0, bs0, F0, IndexOf(bs0, p))
    ensures var i1 := IndexOf(bs1, p); 0 < i1 ==> !Unlisted(m1, bs1, F1, bs1[i1 - 1])
  {
    var i0, i1 := IndexOf(bs0, p), IndexOf(bs1, p);
    if 0 < i1 && Unlisted(m1, bs1, F1, bs1[i1 - 1]) {
      LeftKept(m0, bs0, F0, m1, bs1, F1, i0, i1);
      assert false;
    }
  }

  /** The right neighbour of block `i1` afterwards, free and off the list, was the right neighbour of block `i0` before. */
  lemma RightKept(m0: seq<int>, bs0: seq<int>, F0: seq<int>, m1: seq<int>, bs1: seq<int>, F1: seq<int>, i0: int, i1: int)
    requires Tiled(m0, bs0) && Tiled(m1, bs1) && 0 <= i0 < |bs0| && 0 <= i1 < |bs1| - 1
    requires bs0[i0] == bs1[i1] && 0 <= bs0[i0] < |m0| && 0 <= bs1[i1] < |m1| && m1[bs1[i1]] == m0[bs0[i0]]
    requires KeepsListed(m0, bs0, F0, m1, bs1, F1) && Unlisted(m1, bs1, F1, bs1[i1 + 1])
    ensures i0 + 1 < |bs0| && Unlisted(m0, bs0, F0, bs0[i0 + 1])
  {
    var y := bs1[i1 + 1];
    assert Follows(m1, bs1, i1);
    NextStart(m0, bs0, i0, y);
  }

  /** The left neighbour of block `i1` afterwards, free and off the list, was the left neighbour of block `i0` before. */
  lemma LeftKept(m0: seq<int>, bs0: seq<int>, F0: seq<int>, m1: seq<int>, bs1: seq<int>, F1: seq<int>, i0: int, i1: int)
    requires Tiled(m0, bs0) && Tiled(m1, bs1) && 0 <= i0 < |bs0| && 0 < i1 < |bs1|
    requires bs0[i0] == bs1[i1]
    requires KeepsListed(m0, bs0, F0, m1, bs1, F1) && Unlisted(m1, bs1, F1, bs1[i1 - 1])
    ensures 0 < i0 && Unlisted(m0, bs0, F0, bs0[i0 - 1])
  {
    var y := bs1[i1 - 1];
    LeftNeighbour(m1, bs1, i1);
    var k := IndexIn(bs0, y);
    NextStart(m0, bs0, k, bs0[i0]);
  }

  /** Rewriting words other than tags keeps the free neighbours of every block listed. */
  lemma SameViewNeighbours(m0: seq<int>, m1: seq<int>, bs: seq<int>, F: seq<int>, i: int)
    requires Tiled(m0, bs) && Tiled(m1, bs) && View(m1, bs) == View(m0, bs)
    requires NeighboursListed(m0, bs, F, i)
    ensures NeighboursListed(m1, bs, F, i)
  {
    if 0 <= i + 1 < |bs| {
      assert View(m1, bs)[i + 1] == View(m0, bs)[i + 1];
      BlockIn(m0, bs, i + 1);
    }
    if 0 <= i - 1 < |bs| {
      assert View(m1, bs)[i - 1] == View(m0, bs)[i - 1];
      BlockIn(m0, bs, i - 1);
    }
  }
}
