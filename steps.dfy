/**
 * What each word write of `mem_free` and `mem_alloc` does to the three
 * views of the arena at once: the block tiling, the free list, and the
 * block sequence clients see. Each lemma takes the words before and after
 * one step of the C code (a pair of tag writes, a list insertion or
 * removal, a retraction of the break) and says which invariants carry over.
 */
module Steps {
  import opened Layout
  import opened Model
  import opened Arena
  import opened FreeList

  /**
   * The allocator's invariant on values: `bs` tiles the arena, `F` is a
   * well-formed free list from `head`, and every entry is a free block.
   */
  ghost predicate Fit(mem: seq<int>, bs: seq<int>, F: seq<int>, head: int)
  {
    Tiled(mem, bs) && ListWF(mem, F, head) && ListedFree(mem, F, bs)
  }

  /** Every free block of `bs` other than `x` is on the list. */
  ghost predicate ListedBut(mem: seq<int>, bs: seq<int>, F: seq<int>, x: int)
  {
    forall j :: 0 <= j < |bs| && bs[j] != x && 0 <= bs[j] < |mem| && !IsAllocated(mem[bs[j]]) ==> bs[j] in F
  }

  /** The left neighbour of block `i`, when it is free, is on the list. */
  ghost predicate LeftListed(mem: seq<int>, bs: seq<int>, F: seq<int>, i: int)
  {
    0 <= i - 1 < |bs| && 0 <= bs[i - 1] < |mem| && !IsAllocated(mem[bs[i - 1]]) ==> bs[i - 1] in F
  }

  /** The free neighbours of block `i` are on the list. */
  ghost predicate NeighboursListed(mem: seq<int>, bs: seq<int>, F: seq<int>, i: int)
  {
    && LeftListed(mem, bs, F, i)
    && (0 <= i + 1 < |bs| && 0 <= bs[i + 1] < |mem| && !IsAllocated(mem[bs[i + 1]]) ==> bs[i + 1] in F)
  }

  lemma ListedAll(mem: seq<int>, bs: seq<int>, F: seq<int>, x: int)
    requires ListedBut(mem, bs, F, x) && (x in F || x !in bs)
    ensures AllFreeListed(mem, bs, F)
  {
  }

  /** Outside the range `lo..hi`, every block keeps its header. */
  lemma KeptHeaders(mem: seq<int>, mem': seq<int>, bs: seq<int>, lo: int, hi: int)
    requires Tiled(mem, bs) && TagsKept(mem, mem', bs, lo, hi)
    ensures forall j :: 0 <= j < |bs| && (j < lo || hi < j) ==>
      0 <= bs[j] < |mem| && mem'[bs[j]] == mem[bs[j]]
  {
    forall j | 0 <= j < |bs| && (j < lo || hi < j)
      ensures 0 <= bs[j] < |mem| && mem'[bs[j]] == mem[bs[j]]
    {
      assert BlockAt(mem, bs[j]);
    }
  }

  /** Block starts are strictly increasing, so distinct indices hold distinct starts. */
  lemma Distinct(mem: seq<int>, bs: seq<int>, j: int, k: int)
    requires Tiled(mem, bs) && 0 <= j < |bs| && 0 <= k < |bs|
    ensures bs[j] == bs[k] ==> j == k
  {
    if j < k {
      Ordered(mem, bs, j, k);
      assert BlockAt(mem, bs[j]);
      BlockFacts(mem, bs[j]);
    } else if k < j {
      Ordered(mem, bs, k, j);
      assert BlockAt(mem, bs[k]);
      BlockFacts(mem, bs[k]);
    }
  }

  /** Dropping the start at `i + 1` leaves no block starting there, and keeps block `i` in place. */
  lemma DroppedGone(mem: seq<int>, bs: seq<int>, i: int, bs': seq<int>, r: int)
    requires Tiled(mem, bs) && 0 <= i < |bs| - 1 && bs' == bs[..i + 1] + bs[i + 2..] && r == bs[i + 1]
    ensures r !in bs' && |bs'| > i && bs'[i] == bs[i]
  {
    DropNext(bs, i);
    forall j | 0 <= j < |bs'|
      ensures bs'[j] != r
    {
      Distinct(mem, bs, if j <= i then j else j + 1, i + 1);
    }
  }

  /**
   * The neighbours of block `i` as `mem_free` finds them: the right one
   * at `p + size` and the left one at `p - size` of the footer before `p`.
   */
  lemma Neighbours(mem: seq<int>, bs: seq<int>, i: int)
    requires Tiled(mem, bs) && 0 <= i < |bs|
    ensures BlockAt(mem, bs[i]) && 0 <= bs[i] && End(mem, bs[i]) <= |mem|
    ensures End(mem, bs[i]) == |mem| <==> i == |bs| - 1
    ensures bs[i] == 0 <==> i == 0
    ensures bs[i] + SizeOf(mem[bs[i]]) / WORD_SIZE == End(mem, bs[i])
    ensures i + 1 < |bs| ==> bs[i + 1] == End(mem, bs[i])
    ensures 0 < i ==> 0 <= bs[i - 1] < bs[i] && mem[bs[i] - 1] == mem[bs[i - 1]]
    ensures 0 < i && !IsAllocated(mem[bs[i - 1]]) ==> bs[i] - mem[bs[i] - 1] / WORD_SIZE == bs[i - 1]
  {
    assert BlockAt(mem, bs[i]);
    BlockFacts(mem, bs[i]);
    LastBlock(mem, bs, i);
    assert bs[0] == 0;
    if 0 < i {
      Ordered(mem, bs, 0, i);
      assert BlockAt(mem, bs[0]);
      BlockFacts(mem, bs[0]);
      LeftNeighbour(mem, bs, i);
      assert BlockAt(mem, bs[i - 1]);
      BlockFacts(mem, bs[i - 1]);
    }
    if i + 1 < |bs| {
      assert Follows(mem, bs, i);
    }
  }

  /**
   * What `coalesce_right` and `coalesce_left` read around the free block
   * `i`: its header holds its plain size, the word that size leads to is
   * the right neighbour's header, and the word before it is the left
   * neighbour's footer, which leads back to the left neighbour's header
   * when that block is free.
   */
  lemma FreeAt(mem: seq<int>, bs: seq<int>, i: int)
    requires Tiled(mem, bs) && 0 <= i < |bs| && !View(mem, bs)[i].inUse
    ensures 0 <= bs[i] < |mem| && !IsAllocated(mem[bs[i]]) && SizeOf(mem[bs[i]]) == mem[bs[i]]
    ensures i + 1 < |bs| ==>
      && bs[i] + mem[bs[i]] / WORD_SIZE == bs[i + 1] && 0 <= bs[i + 1] < |mem|
      && (View(mem, bs)[i + 1].inUse <==> IsAllocated(mem[bs[i + 1]]))
    ensures 0 < i ==>
      && 0 < bs[i] && 0 <= bs[i - 1] < |mem| && mem[bs[i] - 1] == mem[bs[i - 1]]
      && (View(mem, bs)[i - 1].inUse <==> IsAllocated(mem[bs[i - 1]]))
      && (!IsAllocated(mem[bs[i - 1]]) ==> bs[i] - mem[bs[i] - 1] / WORD_SIZE == bs[i - 1])
  {
    Neighbours(mem, bs, i);
    assert View(mem, bs)[i] == Info(mem, bs[i]);
    if i + 1 < |bs| {
      Neighbours(mem, bs, i + 1);
      assert View(mem, bs)[i + 1] == Info(mem, bs[i + 1]);
    }
    if 0 < i {
      Neighbours(mem, bs, i - 1);
      assert View(mem, bs)[i - 1] == Info(mem, bs[i - 1]);
    }
  }

  /**
   * Clearing the allocation bit of block `i` (header and footer) frees it
   * in the view and keeps the tiling and the list; the block was not on
   * the list.
   */
  lemma ClearKept(m0: seq<int>, bs: seq<int>, F: seq<int>, head: int, i: int, m1: seq<int>)
    requires Fit(m0, bs, F, head) && 0 <= i < |bs|
    requires 0 <= bs[i] < |m0| && IsAllocated(m0[bs[i]]) && 0 <= End(m0, bs[i]) - 1 < |m0|
    requires m1 == m0[bs[i] := SizeOf(m0[bs[i]])][End(m0, bs[i]) - 1 := SizeOf(m0[bs[i]])]
    ensures Fit(m1, bs, F, head) && bs[i] !in F
    ensures View(m1, bs) == View(m0, bs)[i := BlockInfo(SizeOf(m0[bs[i]]), false)]
    ensures AllFreeListed(m0, bs, F) ==> ListedBut(m1, bs, F, bs[i])
    ensures NeighboursListed(m0, bs, F, i) ==> NeighboursListed(m1, bs, F, i)
  {
    ClearTiles(m0, bs, i, m1);
    KeptHeaders(m0, m1, bs, i, i);
    ClearList(m0, bs, F, head, i, m1);
    ClearListed(m0, bs, F, i, m1);
  }

  lemma ClearTiles(m0: seq<int>, bs: seq<int>, i: int, m1: seq<int>)
    requires Tiled(m0, bs) && 0 <= i < |bs|
    requires 0 <= bs[i] < |m0| && IsAllocated(m0[bs[i]]) && 0 <= End(m0, bs[i]) - 1 < |m0|
    requires m1 == m0[bs[i] := SizeOf(m0[bs[i]])][End(m0, bs[i]) - 1 := SizeOf(m0[bs[i]])]
    ensures TagsKept(m0, m1, bs, i, i) && Tiled(m1, bs)
    ensures View(m1, bs) == View(m0, bs)[i := BlockInfo(SizeOf(m0[bs[i]]), false)]
  {
    var p := bs[i];
    var s := SizeOf(m0[p]);
    assert BlockAt(m0, p);
    BlockFacts(m0, p);
    MultipleOf8Mod(s / 8);
    WriteInRegion(m0, m0, bs, i, i, i, p, s);
    WriteInRegion(m0, m0[p := s], bs, i, i, i, End(m0, p) - 1, s);
    Retag(m0, m1, bs, i);
    RetagView(m0, m1, bs, i);
  }

  lemma ClearList(m0: seq<int>, bs: seq<int>, F: seq<int>, head: int, i: int, m1: seq<int>)
    requires Fit(m0, bs, F, head) && 0 <= i < |bs|
    requires 0 <= bs[i] < |m0| && 0 <= End(m0, bs[i]) - 1 < |m0|
    requires m1 == m0[bs[i] := SizeOf(m0[bs[i]])][End(m0, bs[i]) - 1 := SizeOf(m0[bs[i]])]
    ensures ListWF(m1, F, head)
  {
    BlockLinksNotTags(m0, bs, F);
    forall x | x in F
      ensures x + 2 < |m1| && m1[x + 1] == m0[x + 1] && m1[x + 2] == m0[x + 2]
    {
      assert NotTag(m0, bs, x + 1) && NotTag(m0, bs, x + 2);
    }
    ListFrame(m0, m1, F, head);
  }

  lemma ClearListed(m0: seq<int>, bs: seq<int>, F: seq<int>, i: int, m1: seq<int>)
    requires Tiled(m0, bs) && ListedFree(m0, F, bs) && 0 <= i < |bs|
    requires 0 <= bs[i] < |m0| && IsAllocated(m0[bs[i]]) && |m1| == |m0|
    requires m1[bs[i]] == SizeOf(m0[bs[i]])
    requires forall j :: 0 <= j < |bs| && (j < i || i < j) ==> 0 <= bs[j] < |m0| && m1[bs[j]] == m0[bs[j]]
    ensures ListedFree(m1, F, bs) && bs[i] !in F
    ensures AllFreeListed(m0, bs, F) ==> ListedBut(m1, bs, F, bs[i])
    ensures NeighboursListed(m0, bs, F, i) ==> NeighboursListed(m1, bs, F, i)
  {
    forall x | x in F
      ensures 0 <= x < |m1| && !IsAllocated(m1[x])
    {
      var j := IndexIn(bs, x);
      Distinct(m0, bs, i, j);
    }
  }

  /** The arithmetic `coalesce_right` and `coalesce_left` rely on to find and size the merged block. */
  lemma JoinReady(m0: seq<int>, bs: seq<int>, i: int, a: int, c: int, v: int)
    requires Tiled(m0, bs) && 0 <= i < |bs| - 1 && a == bs[i] && c == bs[i + 1]
    requires !IsAllocated(m0[a]) && !IsAllocated(m0[c]) && v == m0[c] + m0[a]
    ensures v == SizeOf(m0[a]) + SizeOf(m0[c]) && SizeOf(v) == v && v % 8 == 0 && !IsAllocated(v)
    ensures a + SizeOf(v) / WORD_SIZE == End(m0, c) && End(m0, c) <= |m0|
    ensures 0 <= a < End(m0, c) - 1
  {
    assert BlockAt(m0, a) && BlockAt(m0, c);
    BlockFacts(m0, a);
    BlockFacts(m0, c);
    LastBlock(m0, bs, i + 1);
    assert Follows(m0, bs, i);
    assert v == 8 * (Words(m0[a]) + Words(m0[c]));
    MultipleOf8Mod(Words(m0[a]) + Words(m0[c]));
  }

  /**
   * Merging the free blocks `i` and `i + 1` (the sum of their sizes in the
   * left header and the right footer) joins them in the view and in the
   * tiling, and keeps the list well formed.
   */
  lemma JoinKept(m0: seq<int>, bs: seq<int>, F: seq<int>, head: int, i: int, m1: seq<int>, x: int)
    requires Fit(m0, bs, F, head) && 0 <= i < |bs| - 1
    requires !IsAllocated(m0[bs[i]]) && !IsAllocated(m0[bs[i + 1]])
    requires 0 <= End(m0, bs[i + 1]) - 1 < |m0|
    requires var v := SizeOf(m0[bs[i]]) + SizeOf(m0[bs[i + 1]]);
      m1 == m0[bs[i] := v][End(m0, bs[i + 1]) - 1 := v]
    ensures var bs' := bs[..i + 1] + bs[i + 2..];
      && TagsKept(m0, m1, bs, i, i + 1)
      && Tiled(m1, bs') && View(m1, bs') == Join(View(m0, bs), i)
      && ListWF(m1, F, head) && LinksNotTags(m1, bs', F)
      && (forall y :: y in F && y != bs[i + 1] ==> y in bs' && 0 <= y < |m1| && !IsAllocated(m1[y]))
      && (ListedBut(m0, bs, F, x) && (x == bs[i] || x == bs[i + 1]) ==> ListedBut(m1, bs', F, bs[i]))
  {
    var bs' := bs[..i + 1] + bs[i + 2..];
    JoinTiles(m0, bs, i, m1);
    JoinList(m0, bs, F, head, i, m1);
    JoinListed(m0, bs, F, i, m1, x);
  }

  lemma JoinTiles(m0: seq<int>, bs: seq<int>, i: int, m1: seq<int>)
    requires Tiled(m0, bs) && 0 <= i < |bs| - 1
    requires !IsAllocated(m0[bs[i]]) && !IsAllocated(m0[bs[i + 1]])
    requires 0 <= End(m0, bs[i + 1]) - 1 < |m0|
    requires var v := SizeOf(m0[bs[i]]) + SizeOf(m0[bs[i + 1]]);
      m1 == m0[bs[i] := v][End(m0, bs[i + 1]) - 1 := v]
    ensures TagsKept(m0, m1, bs, i, i + 1)
    ensures Tiled(m1, bs[..i + 1] + bs[i + 2..]) && End(m1, bs[i]) == End(m0, bs[i + 1])
    ensures View(m1, bs[..i + 1] + bs[i + 2..]) == Join(View(m0, bs), i)
  {
    var v := SizeOf(m0[bs[i]]) + SizeOf(m0[bs[i + 1]]);
    assert BlockAt(m0, bs[i]) && BlockAt(m0, bs[i + 1]);
    BlockFacts(m0, bs[i]);
    WriteInRegion(m0, m0, bs, i, i + 1, i, bs[i], v);
    WriteInRegion(m0, m0[bs[i] := v], bs, i, i + 1, i + 1, End(m0, bs[i + 1]) - 1, v);
    Merge(m0, m1, bs, i);
    JoinView(m0, m1, bs, i);
  }

  lemma JoinList(m0: seq<int>, bs: seq<int>, F: seq<int>, head: int, i: int, m1: seq<int>)
    requires Fit(m0, bs, F, head) && 0 <= i < |bs| - 1
    requires !IsAllocated(m0[bs[i]]) && !IsAllocated(m0[bs[i + 1]])
    requires 0 <= End(m0, bs[i + 1]) - 1 < |m0|
    requires var v := SizeOf(m0[bs[i]]) + SizeOf(m0[bs[i + 1]]);
      m1 == m0[bs[i] := v][End(m0, bs[i + 1]) - 1 := v]
    requires Tiled(m1, bs[..i + 1] + bs[i + 2..]) && End(m1, bs[i]) == End(m0, bs[i + 1])
    ensures ListWF(m1, F, head) && LinksNotTags(m1, bs[..i + 1] + bs[i + 2..], F)
  {
    BlockLinksNotTags(m0, bs, F);
    forall y | y in F
      ensures y + 2 < |m1| && m1[y + 1] == m0[y + 1] && m1[y + 2] == m0[y + 2]
    {
      assert NotTag(m0, bs, y + 1) && NotTag(m0, bs, y + 2);
    }
    ListFrame(m0, m1, F, head);
    forall y | y in F
      ensures NotTag(m1, bs[..i + 1] + bs[i + 2..], y + 1) && NotTag(m1, bs[..i + 1] + bs[i + 2..], y + 2)
    {
      JoinInterior(m0, bs, i, m1, y);
    }
  }

  /** Every block start of the old tiling has its link words inside a block of the merged one. */
  lemma JoinInterior(m0: seq<int>, bs: seq<int>, i: int, m1: seq<int>, y: int)
    requires Tiled(m0, bs) && 0 <= i < |bs| - 1 && y in bs && 0 <= bs[i] < |m1|
    requires Tiled(m1, bs[..i + 1] + bs[i + 2..]) && End(m1, bs[i]) == End(m0, bs[i + 1])
    ensures NotTag(m1, bs[..i + 1] + bs[i + 2..], y + 1) && NotTag(m1, bs[..i + 1] + bs[i + 2..], y + 2)
  {
    var bs' := bs[..i + 1] + bs[i + 2..];
    DropNext(bs, i);
    var j := IndexIn(bs, y);
    var k := if j <= i then j else if j == i + 1 then i else j - 1;
    BlockIn(m1, bs', k);
    if j == i + 1 {
      BlockIn(m0, bs, i + 1);
      Ordered(m0, bs, i, i + 1);
      BlockIn(m0, bs, i);
    }
    InteriorNotTag(m1, bs', k, y);
  }

  lemma JoinListed(m0: seq<int>, bs: seq<int>, F: seq<int>, i: int, m1: seq<int>, x: int)
    requires Tiled(m0, bs) && ListedFree(m0, F, bs) && 0 <= i < |bs| - 1
    requires TagsKept(m0, m1, bs, i, i + 1)
    requires m1[bs[i]] == SizeOf(m0[bs[i]]) + SizeOf(m0[bs[i + 1]])
    ensures var bs' := bs[..i + 1] + bs[i + 2..];
      && (forall y :: y in F && y != bs[i + 1] ==> y in bs' && 0 <= y < |m1| && !IsAllocated(m1[y]))
      && (ListedBut(m0, bs, F, x) && (x == bs[i] || x == bs[i + 1]) ==> ListedBut(m1, bs', F, bs[i]))
  {
    BlockIn(m0, bs, i);
    BlockIn(m0, bs, i + 1);
    KeptHeaders(m0, m1, bs, i, i + 1);
    JoinEntries(m0, bs, F, i, m1);
    if ListedBut(m0, bs, F, x) && (x == bs[i] || x == bs[i + 1]) {
      JoinListedBut(m0, bs, F, i, m1, x);
    }
  }

  lemma JoinEntries(m0: seq<int>, bs: seq<int>, F: seq<int>, i: int, m1: seq<int>)
    requires Tiled(m0, bs) && ListedFree(m0, F, bs) && 0 <= i < |bs| - 1 && |m1| == |m0|
    requires 0 <= bs[i] < |m0| && m1[bs[i]] % 2 == 0
    requires forall j :: 0 <= j < |bs| && (j < i || i + 1 < j) ==> 0 <= bs[j] < |m0| && m1[bs[j]] == m0[bs[j]]
    ensures forall y :: y in F && y != bs[i + 1] ==>
      y in bs[..i + 1] + bs[i + 2..] && 0 <= y < |m1| && !IsAllocated(m1[y])
  {
    var bs' := bs[..i + 1] + bs[i + 2..];
    DropNext(bs, i);
    forall y | y in F && y != bs[i + 1]
      ensures y in bs' && 0 <= y < |m1| && !IsAllocated(m1[y])
    {
      var j := IndexIn(bs, y);
      if j <= i {
        assert bs'[j] == y;
      } else {
        assert bs'[j - 1] == y;
      }
    }
  }

  lemma JoinListedBut(m0: seq<int>, bs: seq<int>, F: seq<int>, i: int, m1: seq<int>, x: int)
    requires Tiled(m0, bs) && 0 <= i < |bs| - 1 && |m1| == |m0|
    requires forall j :: 0 <= j < |bs| && (j < i || i + 1 < j) ==> 0 <= bs[j] < |m0| && m1[bs[j]] == m0[bs[j]]
    requires ListedBut(m0, bs, F, x) && (x == bs[i] || x == bs[i + 1])
    ensures ListedBut(m1, bs[..i + 1] + bs[i + 2..], F, bs[i])
  {
    var bs' := bs[..i + 1] + bs[i + 2..];
    DropNext(bs, i);
    forall j | 0 <= j < |bs'| && bs'[j] != bs[i] && 0 <= bs'[j] < |m1| && !IsAllocated(m1[bs'[j]])
      ensures bs'[j] in F
    {
      var k := if j <= i then j else j + 1;
      Distinct(m0, bs, k, i);
      Distinct(m0, bs, k, i + 1);
    }
  }

  /**
   * `free_list_remove` on an entry, or on a block whose stale links it
   * leaves unchanged, writes only link words: every tag, hence the tiling
   * and the view, is kept.
   */
  lemma RemoveKept(mem: seq<int>, bs: seq<int>, F: seq<int>, head: int, p: int, x: int)
    requires Tiled(mem, bs) && ListWF(mem, F, head) && LinksNotTags(mem, bs, F)
    requires p in F || StaleUnlinked(mem, F, p)
    ensures 0 <= p && p + 2 < |mem|
    ensures mem[p + 1] != p ==>
      0 <= mem[p + 1] && mem[p + 1] + 2 < |mem| && 0 <= mem[p + 2] && mem[p + 2] + 2 < |mem|
    ensures var m, F' := RemoveLinks(mem, p), if p in F then Without(F, p) else F;
      && SameTags(mem, m, bs) && Tiled(m, bs) && View(m, bs) == View(mem, bs)
      && LinksNotTags(m, bs, F')
      && ((forall y :: y in F && y != p ==> y in bs && 0 <= y < |mem| && !IsAllocated(mem[y])) ==> ListedFree(m, F', bs))
      && (ListedBut(mem, bs, F, x) && (x == p || p !in bs) ==> ListedBut(m, bs, F', x))
  {
    RemoveBounds(mem, F, head, p);
    var m := RemoveLinks(mem, p);
    var F' := if p in F then Without(F, p) else F;
    if p in F {
      RemoveLinksWF(mem, F, head, p);
      WithoutMembers(F, p);
    } else {
      RemoveStale(mem, F, head, p);
    }
    assert SameOffLinks(mem, m, F);
    KeepTiled(mem, m, bs, F);
    SameTagsView(mem, m, bs);
    SameTagsLinks(mem, m, bs, F, F');
    SameTagsHeaders(mem, m, bs);
  }

  /** The bounds `free_list_remove` needs, for an entry or a stale block. */
  lemma RemoveBounds(mem: seq<int>, F: seq<int>, head: int, p: int)
    requires ListWF(mem, F, head)
    requires p in F || StaleUnlinked(mem, F, p)
    ensures 0 <= p && p + 2 < |mem|
    ensures mem[p + 1] != p ==>
      0 <= mem[p + 1] && mem[p + 1] + 2 < |mem| && 0 <= mem[p + 2] && mem[p + 2] + 2 < |mem|
  {
    if p in F {
      var k := IndexOf(F, p);
      RemoveNeighbours(mem, F, head, k);
    }
  }

  lemma SameTagsView(mem: seq<int>, mem': seq<int>, bs: seq<int>)
    requires Tiled(mem, bs) && SameTags(mem, mem', bs)
    ensures View(mem', bs) == View(mem, bs)
  {
    forall j | 0 <= j < |bs|
      ensures Info(mem', bs[j]) == Info(mem, bs[j])
    {
      assert BlockAt(mem, bs[j]);
    }
  }

  lemma SameTagsNotTag(mem: seq<int>, mem': seq<int>, bs: seq<int>, k: int)
    requires Tiled(mem, bs) && SameTags(mem, mem', bs) && NotTag(mem, bs, k)
    ensures NotTag(mem', bs, k)
  {
    forall j | 0 <= j < |bs| && 0 <= bs[j] < |mem'|
      ensures k != bs[j] && k != End(mem', bs[j]) - 1
    {
      assert BlockAt(mem, bs[j]);
    }
  }

  /** Link words that are not tags stay so while the tags are kept, for any part of the list. */
  lemma SameTagsLinks(mem: seq<int>, mem': seq<int>, bs: seq<int>, F: seq<int>, F': seq<int>)
    requires Tiled(mem, bs) && SameTags(mem, mem', bs) && LinksNotTags(mem, bs, F)
    requires forall y :: y in F' ==> y in F
    ensures LinksNotTags(mem', bs, F')
  {
    forall y | y in F'
      ensures NotTag(mem', bs, y + 1) && NotTag(mem', bs, y + 2)
    {
      SameTagsNotTag(mem, mem', bs, y + 1);
      SameTagsNotTag(mem, mem', bs, y + 2);
    }
  }

  lemma SameTagsHeaders(mem: seq<int>, mem': seq<int>, bs: seq<int>)
    requires Tiled(mem, bs) && SameTags(mem, mem', bs)
    ensures forall j :: 0 <= j < |bs| ==> 0 <= bs[j] < |mem| && mem'[bs[j]] == mem[bs[j]]
  {
    forall j | 0 <= j < |bs|
      ensures 0 <= bs[j] < |mem| && mem'[bs[j]] == mem[bs[j]]
    {
      assert BlockAt(mem, bs[j]);
    }
  }

  /**
   * `free_list_add` of a block of the tiling that is not on the list: the
   * block is apart from every entry, and the links it writes keep every
   * tag, hence the tiling and the view.
   */
  lemma AddKept(mem: seq<int>, bs: seq<int>, F: seq<int>, head: int, p: int, x: int)
    requires Tiled(mem, bs) && ListWF(mem, F, head)
    requires p in bs && p !in F && forall y :: y in F ==> y in bs
    ensures 0 <= p && p + 2 < |mem| && ApartAll(F, p)
    ensures head != NULL ==> 0 <= head && head + 2 < |mem| && 0 <= mem[head + 2] && mem[head + 2] + 2 < |mem|
    ensures SameTags(mem, AddLinks(mem, head, p), bs) && Tiled(AddLinks(mem, head, p), bs)
    ensures View(AddLinks(mem, head, p), bs) == View(mem, bs)
    ensures ListWF(AddLinks(mem, head, p), [p] + F, p)
    ensures ListedFree(mem, F, bs) && !IsAllocated(mem[p]) ==> ListedFree(AddLinks(mem, head, p), [p] + F, bs)
    ensures ListedBut(mem, bs, F, x) ==> ListedBut(AddLinks(mem, head, p), bs, [p] + F, x)
  {
    AddApart(mem, bs, F, head, p);
    AddTags(mem, bs, F, head, p, x, AddLinks(mem, head, p));
  }

  /** A block that is not on the list is apart from every entry, so it can be linked in. */
  lemma AddApart(mem: seq<int>, bs: seq<int>, F: seq<int>, head: int, p: int)
    requires Tiled(mem, bs) && ListWF(mem, F, head)
    requires p in bs && p !in F && forall y :: y in F ==> y in bs
    ensures 0 <= p && p + 2 < |mem| && ApartAll(F, p)
    ensures head != NULL ==> 0 <= head && head + 2 < |mem| && 0 <= mem[head + 2] && mem[head + 2] + 2 < |mem|
    ensures ListWF(AddLinks(mem, head, p), [p] + F, p)
  {
    assert BlockAt(mem, p);
    BlockFacts(mem, p);
    forall y | y in F
      ensures Apart(p, y)
    {
      StartsApart(mem, bs, p, y);
    }
    AddLinksWF(mem, F, head, p);
  }

  /** Linking in a block writes no tag, so the tiling, the view and the listed blocks' tags stay. */
  lemma AddTags(mem: seq<int>, bs: seq<int>, F: seq<int>, head: int, p: int, x: int, m: seq<int>)
    requires Tiled(mem, bs) && ListWF(mem, F, head) && 0 <= p && p + 2 < |mem| && ApartAll(F, p)
    requires p in bs && p !in F && forall y :: y in F ==> y in bs
    requires head != NULL ==> 0 <= head && head + 2 < |mem| && 0 <= mem[head + 2] && mem[head + 2] + 2 < |mem|
    requires m == AddLinks(mem, head, p)
    ensures SameTags(mem, m, bs) && Tiled(m, bs) && View(m, bs) == View(mem, bs)
    ensures ListedFree(mem, F, bs) && !IsAllocated(mem[p]) ==> ListedFree(m, [p] + F, bs)
    ensures ListedBut(mem, bs, F, x) ==> ListedBut(m, bs, [p] + F, x)
  {
    AddLinksWF(mem, F, head, p);
    BlockLinksNotTags(mem, bs, [p] + F);
    KeepTiled(mem, m, bs, [p] + F);
    SameTagsView(mem, m, bs);
    SameTagsHeaders(mem, m, bs);
    forall y | y in [p] + F
      ensures 0 <= y < |mem| && m[y] == mem[y]
    {
      var j := IndexIn(bs, y);
    }
  }

  /**
   * Retracting the break below the last block, once that block is off the
   * list, leaves the other blocks tiling the shorter arena with the list
   * intact, and drops the block from the view.
   */
  lemma TopKept(m: seq<int>, bs: seq<int>, F: seq<int>, head: int, q: int)
    requires Fit(m, bs, F, head) && |bs| > 0 && q == bs[|bs| - 1] && q !in F
    ensures 0 <= q <= |m|
    ensures Fit(m[..q], bs[..|bs| - 1], F, head)
    ensures View(m[..q], bs[..|bs| - 1]) == View(m, bs)[..|bs| - 1]
    ensures ListedBut(m, bs, F, q) ==> AllFreeListed(m[..q], bs[..|bs| - 1], F)
  {
    var bs' := bs[..|bs| - 1];
    Truncate(m, bs);
    TruncateView(m, bs);
    forall y | y in F
      ensures y in bs' && y + 2 < q
    {
      var j := IndexIn(bs, y);
      assert j < |bs| - 1;
      Ordered(m, bs, j, |bs| - 1);
      assert BlockAt(m, y);
      BlockFacts(m, y);
    }
    ListFrame(m, m[..q], F, head);
    if ListedBut(m, bs, F, q) {
      forall j | 0 <= j < |bs'| && 0 <= bs'[j] < q && !IsAllocated(m[..q][bs'[j]])
        ensures bs'[j] in F
      {
        Distinct(m, bs, j, |bs| - 1);
      }
    }
  }

  /**
   * `coalesce_right` when the right neighbour is free, first step: the
   * summed size is written into the header and the new footer. The joined
   * block takes the place of both in the tiling and in the view; the right
   * block is still on the list but no longer a block.
   */
  lemma RightJoin(m0: seq<int>, bs: seq<int>, F: seq<int>, head: int, i: int, s: int, m1: seq<int>,
                   bs': seq<int>, p: int, r: int)
    requires Fit(m0, bs, F, head) && 0 <= i < |bs| - 1
    requires !IsAllocated(m0[bs[i]]) && !IsAllocated(m0[bs[i + 1]]) && bs[i] !in F
    requires s == m0[bs[i + 1]] + m0[bs[i]] && 0 <= bs[i] < bs[i] + SizeOf(s) / WORD_SIZE - 1 < |m0|
    requires m1 == m0[bs[i] := s][bs[i] + SizeOf(s) / WORD_SIZE - 1 := s]
    requires bs' == bs[..i + 1] + bs[i + 2..] && p == bs[i] && r == bs[i + 1]
    ensures Tiled(m1, bs') && ListWF(m1, F, head) && LinksNotTags(m1, bs', F)
    ensures View(m1, bs') == Join(View(m0, bs), i)
    ensures forall y :: y in F && y != r ==> y in bs' && 0 <= y < |m1| && !IsAllocated(m1[y])
    ensures r !in bs' && |bs'| > i && bs'[i] == p && 0 <= p < |m1| && !IsAllocated(m1[p])
    ensures ListedBut(m0, bs, F, p) ==> ListedBut(m1, bs', F, p)
    ensures LeftListed(m0, bs, F, i) ==> LeftListed(m1, bs', F, i)
  {
    JoinForm(m0, bs, i, s, m1);
    JoinKept(m0, bs, F, head, i, m1, p);
    DroppedGone(m0, bs, i, bs', r);
    assert 0 <= p < |m1| && !IsAllocated(m1[p]) by {
      JoinReady(m0, bs, i, p, r, s);
      assert m1[p] == s;
    }
    if LeftListed(m0, bs, F, i) && 0 < i {
      assert bs'[i - 1] == bs[i - 1];
      assert 0 <= bs[i - 1] < |m0| && m1[bs[i - 1]] == m0[bs[i - 1]] by {
        KeptHeaders(m0, m1, bs, i, i + 1);
      }
    }
  }

  /**
   * `coalesce_right`, second step: with the right block off the list, the
   * joined block can be linked in at the head, and the result is a fit
   * heap with the same view, the joined block listed, the completeness of
   * the list restored and a listed left neighbour still listed.
   */
  lemma RightRelist(m1: seq<int>, bs: seq<int>, F: seq<int>, head: int, i: int, r: int,
                    m2: seq<int>, F2: seq<int>, h2: int, p: int) returns (m3: seq<int>)
    requires Tiled(m1, bs) && ListWF(m1, F, head) && LinksNotTags(m1, bs, F)
    requires r in F && r !in bs && forall y :: y in F && y != r ==> y in bs && 0 <= y < |m1| && !IsAllocated(m1[y])
    requires 0 <= i < |bs| && p == bs[i] && p !in F && 0 <= p < |m1| && !IsAllocated(m1[p])
    requires 0 <= r && r + 2 < |m1|
    requires 0 <= m1[r + 1] && m1[r + 1] + 2 < |m1| && 0 <= m1[r + 2] && m1[r + 2] + 2 < |m1|
    requires m2 == RemoveLinks(m1, r) && F2 == Without(F, r) && h2 == RemoveHead(m1, head, r)
    requires ListWF(m2, F2, h2)
    ensures 0 <= p && p + 2 < |m2| && ApartAll(F2, p)
    ensures h2 != NULL ==> 0 <= h2 && h2 + 2 < |m2| && 0 <= m2[h2 + 2] && m2[h2 + 2] + 2 < |m2|
    ensures m3 == AddLinks(m2, h2, p)
    ensures Fit(m3, bs, [p] + F2, p) && View(m3, bs) == View(m1, bs)
    ensures ListedBut(m1, bs, F, p) ==> AllFreeListed(m3, bs, [p] + F2)
    ensures LeftListed(m1, bs, F, i) ==> LeftListed(m3, bs, [p] + F2, i)
  {
    assert ListedFree(m2, F2, bs) && SameTags(m1, m2, bs) && Tiled(m2, bs) && View(m2, bs) == View(m1, bs)
      && (ListedBut(m1, bs, F, p) ==> ListedBut(m2, bs, F2, p)) by {
      RemoveKept(m1, bs, F, head, r, p);
      WithoutMembers(F, r);
    }
    assert 0 <= bs[i] < |m1| && m2[bs[i]] == m1[bs[i]] by {
      SameTagsHeaders(m1, m2, bs);
    }
    assert p !in F2 && forall y :: y in F2 ==> y in bs by {
      WithoutMembers(F, r);
    }
    assert 0 <= p && p + 2 < |m2| && ApartAll(F2, p)
      && (h2 != NULL ==> 0 <= h2 && h2 + 2 < |m2| && 0 <= m2[h2 + 2] && m2[h2 + 2] + 2 < |m2|) by {
      AddKept(m2, bs, F2, h2, p, p);
    }
    m3 := AddLinks(m2, h2, p);
    assert && SameTags(m2, m3, bs) && Tiled(m3, bs) && View(m3, bs) == View(m2, bs)
      && ListWF(m3, [p] + F2, p) && ListedFree(m3, [p] + F2, bs)
      && (ListedBut(m2, bs, F2, p) ==> ListedBut(m3, bs, [p] + F2, p)) by {
      AddKept(m2, bs, F2, h2, p, p);
    }
    if ListedBut(m1, bs, F, p) {
      ListedAll(m3, bs, [p] + F2, p);
    }
    if LeftListed(m1, bs, F, i) && 0 < i && 0 <= bs[i - 1] < |m3| && !IsAllocated(m3[bs[i - 1]]) {
      assert m3[bs[i - 1]] == m1[bs[i - 1]] by {
        SameTagsHeaders(m1, m2, bs);
        SameTagsHeaders(m2, m3, bs);
      }
      assert bs[i - 1] in F2 by {
        WithoutMembers(F, r);
      }
    }
  }

  /**
   * `coalesce_left` when the left neighbour `j` is free: that block absorbs
   * block `j + 1` by taking the summed size into its header and the new
   * footer. The list is untouched, and a block missing from it only by
   * being block `j + 1` is now missing only by being the joined block.
   */
  lemma LeftMerge(m0: seq<int>, bs: seq<int>, F: seq<int>, head: int, j: int, s: int, m1: seq<int>)
    requires Fit(m0, bs, F, head) && 0 <= j < |bs| - 1
    requires !IsAllocated(m0[bs[j]]) && !IsAllocated(m0[bs[j + 1]]) && bs[j + 1] !in F
    requires s == m0[bs[j]] + m0[bs[j + 1]] && 0 <= bs[j] < bs[j] + SizeOf(s) / WORD_SIZE - 1 < |m0|
    requires m1 == m0[bs[j] := s][bs[j] + SizeOf(s) / WORD_SIZE - 1 := s]
    ensures var bs' := bs[..j + 1] + bs[j + 2..];
      && Fit(m1, bs', F, head) && View(m1, bs') == Join(View(m0, bs), j)
      && (ListedBut(m0, bs, F, bs[j + 1]) ==> ListedBut(m1, bs', F, bs[j]))
  {
    JoinForm(m0, bs, j, s, m1);
    JoinKept(m0, bs, F, head, j, m1, bs[j + 1]);
  }

  /**
   * Taking block `i` off the list (`mem_free` does so before the left
   * merge once the right merge has listed it) keeps a listed left
   * neighbour listed.
   */
  lemma RemoveKeepsLeft(mem: seq<int>, bs: seq<int>, F: seq<int>, head: int, i: int)
    requires Fit(mem, bs, F, head) && 0 <= i < |bs| && bs[i] in F
    requires LeftListed(mem, bs, F, i)
    ensures 0 <= bs[i] && bs[i] + 2 < |mem|
    ensures mem[bs[i] + 1] != bs[i] ==>
      0 <= mem[bs[i] + 1] && mem[bs[i] + 1] + 2 < |mem| && 0 <= mem[bs[i] + 2] && mem[bs[i] + 2] + 2 < |mem|
    ensures LeftListed(RemoveLinks(mem, bs[i]), bs, Without(F, bs[i]), i)
  {
    var p := bs[i];
    RemoveBounds(mem, F, head, p);
    var m := RemoveLinks(mem, p);
    if 0 < i && 0 <= bs[i - 1] < |m| && !IsAllocated(m[bs[i - 1]]) {
      assert m[bs[i - 1]] == mem[bs[i - 1]] by {
        BlockLinksNotTags(mem, bs, F);
        RemoveKept(mem, bs, F, head, p, p);
        SameTagsHeaders(mem, m, bs);
      }
      assert bs[i - 1] != p by {
        Distinct(mem, bs, i - 1, i);
      }
      assert bs[i - 1] in Without(F, p) by {
        WithoutMembers(F, p);
      }
    }
  }


  /** The footer `coalesce_right` and `coalesce_left` write lies inside the arena, past the header. */
  lemma JoinBounds(m0: seq<int>, bs: seq<int>, i: int, s: int)
    requires Tiled(m0, bs) && 0 <= i < |bs| - 1
    requires !IsAllocated(m0[bs[i]]) && !IsAllocated(m0[bs[i + 1]]) && s == m0[bs[i]] + m0[bs[i + 1]]
    ensures 0 <= bs[i] < bs[i] + SizeOf(s) / WORD_SIZE - 1 < |m0|
  {
    JoinReady(m0, bs, i, bs[i], bs[i + 1], m0[bs[i + 1]] + m0[bs[i]]);
  }

  /**
   * The words `coalesce_right` and `coalesce_left` write, the sum of the two
   * raw tags at the left header and at the footer it reaches, are the joined
   * block's size at its header and at the right block's footer.
   */
  lemma JoinForm(m0: seq<int>, bs: seq<int>, i: int, s: int, m1: seq<int>)
    requires Tiled(m0, bs) && 0 <= i < |bs| - 1
    requires !IsAllocated(m0[bs[i]]) && !IsAllocated(m0[bs[i + 1]])
    requires s == m0[bs[i + 1]] + m0[bs[i]] && 0 <= bs[i] < bs[i] + SizeOf(s) / WORD_SIZE - 1 < |m0|
    requires m1 == m0[bs[i] := s][bs[i] + SizeOf(s) / WORD_SIZE - 1 := s]
    ensures 0 <= End(m0, bs[i + 1]) - 1 < |m0|
    ensures var v := SizeOf(m0[bs[i]]) + SizeOf(m0[bs[i + 1]]);
      m1 == m0[bs[i] := v][End(m0, bs[i + 1]) - 1 := v]
  {
    JoinReady(m0, bs, i, bs[i], bs[i + 1], m0[bs[i + 1]] + m0[bs[i]]);
  }

  /** Writing the joined tags keeps the list as it was: the right block can be taken off it. */
  lemma JoinedList(m0: seq<int>, bs: seq<int>, F: seq<int>, head: int, i: int, s: int, m1: seq<int>)
    requires Fit(m0, bs, F, head) && 0 <= i < |bs| - 1
    requires !IsAllocated(m0[bs[i]]) && !IsAllocated(m0[bs[i + 1]])
    requires s == m0[bs[i + 1]] + m0[bs[i]] && 0 <= bs[i] < bs[i] + SizeOf(s) / WORD_SIZE - 1 < |m0|
    requires m1 == m0[bs[i] := s][bs[i] + SizeOf(s) / WORD_SIZE - 1 := s]
    ensures ListWF(m1, F, head)
    ensures var r := bs[i + 1]; r in F ==>
      && 0 <= r && r + 2 < |m1|
      && 0 <= m1[r + 1] && m1[r + 1] + 2 < |m1| && 0 <= m1[r + 2] && m1[r + 2] + 2 < |m1|
  {
    JoinForm(m0, bs, i, s, m1);
    JoinTiles(m0, bs, i, m1);
    JoinList(m0, bs, F, head, i, m1);
    if bs[i + 1] in F {
      EntryBounds(m1, F, head, bs[i + 1]);
    }
  }

  /**
   * `coalesce_right` from start to end: once the joined tags are written
   * and the right block is taken off the list, linking the joined block in
   * at the head is possible and gives a fit heap whose view joins the two
   * blocks, with the list completeness and a listed left neighbour carried
   * over.
   */
  lemma RightMerge(m0: seq<int>, bs: seq<int>, F: seq<int>, head: int, i: int, s: int,
                   m1: seq<int>, m2: seq<int>, F2: seq<int>, h2: int, p: int, r: int, bs': seq<int>)
    requires Fit(m0, bs, F, head) && 0 <= i < |bs| - 1 && p == bs[i] && r == bs[i + 1] && bs' == bs[..i + 1] + bs[i + 2..]
    requires !IsAllocated(m0[p]) && !IsAllocated(m0[r]) && p !in F && r in F
    requires s == m0[r] + m0[p] && 0 <= p < p + SizeOf(s) / WORD_SIZE - 1 < |m0|
    requires m1 == m0[p := s][p + SizeOf(s) / WORD_SIZE - 1 := s]
    requires 0 <= r && r + 2 < |m1|
    requires 0 <= m1[r + 1] && m1[r + 1] + 2 < |m1| && 0 <= m1[r + 2] && m1[r + 2] + 2 < |m1|
    requires m2 == RemoveLinks(m1, r) && F2 == Without(F, r) && h2 == RemoveHead(m1, head, r)
    ensures 0 <= p && p + 2 < |m2| && ApartAll(F2, p) && |bs'| > i && bs'[i] == p
    ensures h2 != NULL ==> 0 <= h2 && h2 + 2 < |m2| && 0 <= m2[h2 + 2] && m2[h2 + 2] + 2 < |m2|
    ensures Fit(AddLinks(m2, h2, p), bs', [p] + F2, p)
    ensures View(AddLinks(m2, h2, p), bs') == Join(View(m0, bs), i)
    ensures ListedBut(m0, bs, F, p) ==> AllFreeListed(AddLinks(m2, h2, p), bs', [p] + F2)
    ensures LeftListed(m0, bs, F, i) ==> LeftListed(AddLinks(m2, h2, p), bs', [p] + F2, i)
  {
    assert ListWF(m2, F2, h2) by {
      JoinedList(m0, bs, F, head, i, s, m1);
      RemoveLinksWF(m1, F, head, r);
    }
    RightJoin(m0, bs, F, head, i, s, m1, bs', p, r);
    var m3 := RightRelist(m1, bs', F, head, i, r, m2, F2, h2, p);
  }

  /**
   * `coalesce_right` on the free block `i` at `p`, off the list, and its
   * listed free right neighbour at `r`, planned from the arena `m0`: `m1`
   * is the arena once the summed size `s` is in the joined block's tags,
   * `m2`, `F2` and `h2` the arena, list and head once `r` has left the
   * list. Linking `p` in at the head then gives a fit heap whose view is
   * `Join`.
   */
  lemma AbsorbPlan(m0: seq<int>, bs: seq<int>, F: seq<int>, head: int, i: int, p: int, r: int, s: int, bs': seq<int>)
    returns (m1: seq<int>, m2: seq<int>, F2: seq<int>, h2: int)
    requires Fit(m0, bs, F, head) && 0 <= i < |bs| - 1 && p == bs[i] && r == bs[i + 1] && bs' == bs[..i + 1] + bs[i + 2..]
    requires !View(m0, bs)[i].inUse && !View(m0, bs)[i + 1].inUse && p !in F && r in F
    requires 0 <= p < |m0| && 0 <= r < |m0| && s == m0[r] + m0[p]
    ensures 0 <= p < p + SizeOf(s) / WORD_SIZE - 1 < |m0|
    ensures m1 == m0[p := s][p + SizeOf(s) / WORD_SIZE - 1 := s] && ListWF(m1, F, head)
    ensures 0 <= r && r + 2 < |m1|
    ensures 0 <= m1[r + 1] && m1[r + 1] + 2 < |m1| && 0 <= m1[r + 2] && m1[r + 2] + 2 < |m1|
    ensures m2 == RemoveLinks(m1, r) && F2 == Without(F, r) && h2 == RemoveHead(m1, head, r)
    ensures 0 <= p && p + 2 < |m2| && ApartAll(F2, p) && |bs'| > i && bs'[i] == p
    ensures h2 != NULL ==> 0 <= h2 && h2 + 2 < |m2| && 0 <= m2[h2 + 2] && m2[h2 + 2] + 2 < |m2|
    ensures Fit(AddLinks(m2, h2, p), bs', [p] + F2, p)
    ensures View(AddLinks(m2, h2, p), bs') == Join(View(m0, bs), i)
    ensures ListedBut(m0, bs, F, p) ==> AllFreeListed(AddLinks(m2, h2, p), bs', [p] + F2)
    ensures LeftListed(m0, bs, F, i) ==> LeftListed(AddLinks(m2, h2, p), bs', [p] + F2, i)
  {
    FreeAt(m0, bs, i);
    FreeAt(m0, bs, i + 1);
    JoinBounds(m0, bs, i, s);
    m1 := m0[p := s][p + SizeOf(s) / WORD_SIZE - 1 := s];
    JoinedList(m0, bs, F, head, i, s, m1);
    m2, F2, h2 := RemoveLinks(m1, r), Without(F, r), RemoveHead(m1, head, r);
    RightMerge(m0, bs, F, head, i, s, m1, m2, F2, h2, p, r, bs');
  }

  /**
   * `free_list_remove` on the listed block `i` keeps a fit heap with the
   * same view, takes the block off the list, and keeps every other free
   * block and a free left neighbour listed.
   */
  lemma Unlist(mem: seq<int>, bs: seq<int>, F: seq<int>, head: int, i: int)
    requires Fit(mem, bs, F, head) && 0 <= i < |bs| && bs[i] in F
    ensures 0 <= bs[i] && bs[i] + 2 < |mem|
    ensures 0 <= mem[bs[i] + 1] && mem[bs[i] + 1] + 2 < |mem| && 0 <= mem[bs[i] + 2] && mem[bs[i] + 2] + 2 < |mem|
    ensures var p := bs[i];
      var m, F', h := RemoveLinks(mem, p), Without(F, p), RemoveHead(mem, head, p);
      && Fit(m, bs, F', h) && View(m, bs) == View(mem, bs) && p !in F'
      && (AllFreeListed(mem, bs, F) ==> ListedBut(m, bs, F', p))
      && (LeftListed(mem, bs, F, i) ==> LeftListed(m, bs, F', i))
  {
    var p := bs[i];
    EntryBounds(mem, F, head, p);
    var m, F', h := RemoveLinks(mem, p), Without(F, p), RemoveHead(mem, head, p);
    assert ListWF(m, F', h) && p !in F' by {
      RemoveLinksWF(mem, F, head, p);
      WithoutMembers(F, p);
    }
    assert && Tiled(m, bs) && View(m, bs) == View(mem, bs) && ListedFree(m, F', bs)
      && (ListedBut(mem, bs, F, p) ==> ListedBut(m, bs, F', p)) by {
      BlockLinksNotTags(mem, bs, F);
      RemoveKept(mem, bs, F, head, p, p);
    }
    assert AllFreeListed(mem, bs, F) ==> ListedBut(mem, bs, F, p);
    if LeftListed(mem, bs, F, i) {
      RemoveKeepsLeft(mem, bs, F, head, i);
    }
  }

  /**
   * `free_list_add` of the free block `i`, which is not on the list, keeps
   * a fit heap with the same view; a block that was the only free block
   * missing from the list leaves none missing.
   */
  lemma Relist(mem: seq<int>, bs: seq<int>, F: seq<int>, head: int, i: int)
    requires Fit(mem, bs, F, head) && 0 <= i < |bs| && bs[i] !in F
    requires 0 <= bs[i] < |mem| && !IsAllocated(mem[bs[i]])
    ensures 0 <= bs[i] && bs[i] + 2 < |mem| && ApartAll(F, bs[i])
    ensures head != NULL ==> 0 <= head && head + 2 < |mem| && 0 <= mem[head + 2] && mem[head + 2] + 2 < |mem|
    ensures var p := bs[i];
      var m := AddLinks(mem, head, p);
      && Fit(m, bs, [p] + F, p) && View(m, bs) == View(mem, bs)
      && (ListedBut(mem, bs, F, p) ==> AllFreeListed(m, bs, [p] + F))
  {
    var p := bs[i];
    AddKept(mem, bs, F, head, p, p);
    if ListedBut(mem, bs, F, p) {
      ListedAll(AddLinks(mem, head, p), bs, [p] + F, p);
    }
  }

  /**
   * The end of `mem_free` when the released block is the last one: taking
   * it off the list (it may already be off, with stale links) and moving
   * the break down to its header leaves a fit heap whose view drops the
   * block, with no free block missing from the list if it was the only one.
   */
  lemma TopRelease(mem: seq<int>, bs: seq<int>, F: seq<int>, head: int, q: int, m: seq<int>, F': seq<int>, h: int)
    requires Fit(mem, bs, F, head) && |bs| > 0 && q == bs[|bs| - 1]
    requires q in F || StaleUnlinked(mem, F, q)
    requires 0 <= q && q + 2 < |mem|
    requires mem[q + 1] != q ==>
      0 <= mem[q + 1] && mem[q + 1] + 2 < |mem| && 0 <= mem[q + 2] && mem[q + 2] + 2 < |mem|
    requires m == RemoveLinks(mem, q) && h == RemoveHead(mem, head, q)
    requires q in F ==> F' == Without(F, q)
    requires q !in F ==> F' == F
    ensures var n := |bs| - 1;
      && 0 <= q <= |m|
      && Fit(m[..q], bs[..n], F', h) && View(m[..q], bs[..n]) == View(mem, bs)[..n]
      && (ListedBut(mem, bs, F, q) ==> AllFreeListed(m[..q], bs[..n], F'))
  {
    BlockLinksNotTags(mem, bs, F);
    RemoveKept(mem, bs, F, head, q, q);
    assert ListWF(m, F', h) && q !in F' by {
      if q in F {
        RemoveLinksWF(mem, F, head, q);
        WithoutMembers(F, q);
      } else {
        RemoveStale(mem, F, head, q);
      }
    }
    TopKept(m, bs, F', h, q);
  }

  /**
   * What `mem_free` reads off a free block `k`: its header holds its plain
   * size, the block ends at the top of the arena exactly when it is the
   * last one, and it starts at `heap_start` exactly when it is the first.
   */
  lemma FreeHeader(mem: seq<int>, bs: seq<int>, k: int)
    requires Tiled(mem, bs) && 0 <= k < |bs| && !View(mem, bs)[k].inUse
    ensures 0 <= bs[k] < |mem| && mem[bs[k]] == View(mem, bs)[k].size && !IsAllocated(mem[bs[k]])
    ensures bs[k] + mem[bs[k]] / WORD_SIZE <= |mem|
    ensures bs[k] + mem[bs[k]] / WORD_SIZE == |mem| <==> k == |bs| - 1
    ensures bs[k] == 0 <==> k == 0
  {
    FreeAt(mem, bs, k);
    Neighbours(mem, bs, k);
    assert View(mem, bs)[k] == Info(mem, bs[k]);
  }

  /** A free left neighbour of a block whose left neighbour is listed is on the list. */
  lemma LeftFree(mem: seq<int>, bs: seq<int>, F: seq<int>, i: int)
    requires Tiled(mem, bs) && 0 < i < |bs| && LeftListed(mem, bs, F, i) && !View(mem, bs)[i - 1].inUse
    ensures bs[i - 1] in F
  {
    assert BlockAt(mem, bs[i - 1]);
    assert View(mem, bs)[i - 1] == Info(mem, bs[i - 1]);
  }

  /**
   * The state the end of `mem_free` reaches once the block `k` is listed
   * (or kept as it is): a fit heap with the same view as before, the block
   * on the list or off it with stale links, the block ending at the top
   * exactly when it is the last one, and the list complete but for the
   * block when it was so before.
   */
  ghost predicate Settled(mem: seq<int>, m: seq<int>, bs: seq<int>, F: seq<int>, F': seq<int>, h: int, k: int, coalesce: bool, size: int)
  {
    && 0 <= k < |bs| && |m| == |mem|
    && Fit(m, bs, F', h) && View(m, bs) == View(mem, bs) && (bs[k] in F' || StaleUnlinked(m, F', bs[k]))
    && (bs[k] + size / WORD_SIZE == |m| <==> k == |bs| - 1)
    && (ListedBut(mem, bs, F, bs[k]) && (coalesce && bs[k] !in F ==> k == |bs| - 1) ==>
         ListedBut(m, bs, F', bs[k]) && (bs[k] in F' || k == |bs| - 1))
  }

  /**
   * The first step of the end of `mem_free` on the free block `k`: the
   * block is listed when nothing merged and kept as it is otherwise. The
   * heap stays fit with the same view, the block is on the list or off it
   * with stale links, and the block ends at the top exactly when it is the
   * last one.
   */
  lemma SettleList(mem: seq<int>, bs: seq<int>, F: seq<int>, head: int, k: int, coalesce: bool, size: int)
    requires Fit(mem, bs, F, head) && 0 <= k < |bs|
    requires !View(mem, bs)[k].inUse && size == View(mem, bs)[k].size
    requires !coalesce ==> bs[k] !in F
    requires coalesce ==> bs[k] in F || StaleUnlinked(mem, F, bs[k])
    ensures 0 <= bs[k] && bs[k] + 2 < |mem|
    ensures !coalesce ==> ApartAll(F, bs[k])
    ensures !coalesce && head != NULL ==>
      0 <= head && head + 2 < |mem| && 0 <= mem[head + 2] && mem[head + 2] + 2 < |mem|
    ensures coalesce ==> Settled(mem, mem, bs, F, F, head, k, coalesce, size)
    ensures !coalesce ==> Settled(mem, AddLinks(mem, head, bs[k]), bs, F, [bs[k]] + F, bs[k], k, coalesce, size)
  {
    FreeHeader(mem, bs, k);
    BlockIn(mem, bs, k);
    if !coalesce {
      Relist(mem, bs, F, head, k);
    }
  }
}
