/**
 * The arena as values. `mem` is the arena `[heap_start, heap_end)` as a
 * sequence of 8-byte words (word 0 is `heap_start`, `|mem|` is `heap_end`).
 * `bs` lists the block starts in address order and `F` the free list as it
 * is met walking `next` links from its head. The predicates here say when
 * these views agree with the words; the lemmas say which word writes keep
 * them in agreement.
 */
module Arena {
  import opened Layout
  import opened Model

  /** The null pointer: below every word of the arena, so `ptr <= heap_start` rejects it. */
  const NULL: int := -1

  /** Word index one past the block whose header is at `b`. */
  function End(mem: seq<int>, b: int): int
    requires 0 <= b < |mem|
  {
    b + Words(mem[b])
  }

  /**
   * A well-formed block at `b`: its header holds a multiple of 8 of at least
   * MIN_SIZE bytes with the allocation status in bit 0, the block lies inside
   * the arena, and its footer holds the same word as its header.
   */
  ghost predicate BlockAt(mem: seq<int>, b: int)
  {
    && 0 <= b < |mem|
    && mem[b] >= 0
    && (mem[b] % 8 == 0 || mem[b] % 8 == 1)
    && SizeOf(mem[b]) >= MIN_SIZE
    && End(mem, b) <= |mem|
    && mem[End(mem, b) - 1] == mem[b]
  }

  /**
   * `bs` tiles the words `[from, to)`: the first block starts at `from`,
   * each block starts where the previous one ends, and the last one ends at `to`.
   */
  ghost predicate Segment(mem: seq<int>, bs: seq<int>, from: int, to: int)
  {
    && (|bs| == 0 ==> from == to)
    && (forall i :: 0 <= i < |bs| ==> BlockAt(mem, bs[i]))
    && (|bs| > 0 ==> bs[0] == from && End(mem, bs[|bs| - 1]) == to)
    && (forall i {:trigger Follows(mem, bs, i)} :: 0 <= i < |bs| - 1 ==> Follows(mem, bs, i))
  }

  /**
   * Block `i + 1` of `bs` starts where block `i` ends. `Segment` states this
   * for every `i` through a quantifier that only fires on an explicit
   * `Follows` term, so a proof names the pairs it needs.
   */
  ghost predicate Follows(mem: seq<int>, bs: seq<int>, i: int)
  {
    0 <= i && i + 1 < |bs| && 0 <= bs[i] < |mem| && bs[i + 1] == End(mem, bs[i])
  }

  /** `bs` tiles the whole arena `[heap_start, heap_end)`. */
  ghost predicate Tiled(mem: seq<int>, bs: seq<int>)
  {
    Segment(mem, bs, 0, |mem|)
  }

  /** Two adjacent tiled segments tile their union. */
  lemma SegmentConcat(mem: seq<int>, a: seq<int>, b: seq<int>, from: int, mid: int, to: int)
    requires Segment(mem, a, from, mid) && Segment(mem, b, mid, to)
    ensures Segment(mem, a + b, from, to)
  {
    var ab := a + b;
    forall i | 0 <= i < |ab| - 1
      ensures Follows(mem, ab, i)
    {
      if i + 1 < |a| {
        assert Follows(mem, a, i);
        assert ab[i + 1] == a[i + 1] && ab[i] == a[i];
      } else if i == |a| - 1 {
        assert ab[i + 1] == b[0] && ab[i] == a[i];
        assert BlockAt(mem, a[i]);
      } else {
        assert Follows(mem, b, i - |a|);
        assert ab[i + 1] == b[i + 1 - |a|] && ab[i] == b[i - |a|];
      }
    }
    if |b| == 0 {
      assert ab == a;
    }
  }

  /** Cutting a tiled segment before its `k`-th block gives two tiled segments. */
  lemma SegmentSlice(mem: seq<int>, bs: seq<int>, from: int, to: int, k: int)
    requires Segment(mem, bs, from, to) && 0 <= k < |bs|
    ensures Segment(mem, bs[..k], from, bs[k]) && Segment(mem, bs[k..], bs[k], to)
  {
    var a, b := bs[..k], bs[k..];
    forall i | 0 <= i < |a| - 1
      ensures Follows(mem, a, i)
    {
      assert Follows(mem, bs, i);
    }
    forall i | 0 <= i < |b| - 1
      ensures Follows(mem, b, i)
    {
      assert Follows(mem, bs, k + i);
    }
    if k > 0 {
      assert Follows(mem, bs, k - 1);
    }
  }

  /** A single well-formed block tiles its own words. */
  lemma SegmentSingle(mem: seq<int>, b: int)
    requires BlockAt(mem, b)
    ensures Segment(mem, [b], b, End(mem, b))
  {
  }

  /** A tiled segment depends only on the tags of its blocks. */
  lemma SegmentFrame(mem: seq<int>, mem': seq<int>, bs: seq<int>, from: int, to: int)
    requires Segment(mem, bs, from, to) && |mem'| == |mem|
    requires forall j :: 0 <= j < |bs| ==>
      mem'[bs[j]] == mem[bs[j]] && mem'[End(mem, bs[j]) - 1] == mem[End(mem, bs[j]) - 1]
    ensures Segment(mem', bs, from, to)
  {
    forall j | 0 <= j < |bs|
      ensures BlockAt(mem', bs[j]) && End(mem', bs[j]) == End(mem, bs[j])
    {
      assert BlockAt(mem, bs[j]);
    }
    forall i | 0 <= i < |bs| - 1
      ensures Follows(mem', bs, i)
    {
      assert Follows(mem, bs, i);
    }
  }

  lemma BlockFacts(mem: seq<int>, b: int)
    requires BlockAt(mem, b)
    ensures SizeOf(mem[b]) == WORD_SIZE * Words(mem[b]) && SizeOf(mem[b]) % 8 == 0
    ensures Words(mem[b]) >= 4 && b + 4 <= End(mem, b)
  {
  }

  /** Blocks come in address order: a block ends at or before the start of every later one. */
  lemma {:induction false} Ordered(mem: seq<int>, bs: seq<int>, j: int, k: int)
    requires Tiled(mem, bs) && 0 <= j < k < |bs|
    ensures End(mem, bs[j]) <= bs[k]
    decreases k - j
  {
    assert Follows(mem, bs, j);
    if j + 1 < k {
      Ordered(mem, bs, j + 1, k);
      BlockFacts(mem, bs[j + 1]);
    }
  }

  /** A word inside block `i` lies inside no other block. */
  lemma UniqueOwner(mem: seq<int>, bs: seq<int>, i: int, k: int)
    requires Tiled(mem, bs) && 0 <= i < |bs| && bs[i] <= k < End(mem, bs[i])
    ensures forall j :: 0 <= j < |bs| && bs[j] <= k < End(mem, bs[j]) ==> j == i
  {
    forall j | 0 <= j < |bs| && bs[j] <= k < End(mem, bs[j])
      ensures j == i
    {
      if j < i {
        Ordered(mem, bs, j, i);
      } else if i < j {
        Ordered(mem, bs, i, j);
      }
    }
  }

  /** Two different blocks start at least MIN_SIZE bytes apart. */
  lemma StartsApart(mem: seq<int>, bs: seq<int>, x: int, y: int)
    requires Tiled(mem, bs) && x in bs && y in bs && x != y
    ensures x + 4 <= y || y + 4 <= x
  {
    var i :| 0 <= i < |bs| && bs[i] == x;
    var j :| 0 <= j < |bs| && bs[j] == y;
    BlockFacts(mem, x);
    BlockFacts(mem, y);
    if i < j {
      Ordered(mem, bs, i, j);
    } else {
      Ordered(mem, bs, j, i);
    }
  }

  /** The block whose end is `heap_end` is the last one; any other has a right neighbour. */
  lemma LastBlock(mem: seq<int>, bs: seq<int>, i: int)
    requires Tiled(mem, bs) && 0 <= i < |bs|
    ensures End(mem, bs[i]) == |mem| <==> i == |bs| - 1
    ensures End(mem, bs[i]) <= |mem|
  {
    if i < |bs| - 1 {
      assert Follows(mem, bs, i);
      assert BlockAt(mem, bs[i + 1]);
    }
  }

  /** The word just below a block that is not first is its left neighbour's footer. */
  lemma LeftNeighbour(mem: seq<int>, bs: seq<int>, i: int)
    requires Tiled(mem, bs) && 0 < i < |bs|
    ensures bs[i] == End(mem, bs[i - 1]) && mem[bs[i] - 1] == mem[bs[i - 1]]
    ensures bs[i] - Words(mem[bs[i] - 1]) == bs[i - 1]
  {
    assert Follows(mem, bs, i - 1);
    assert BlockAt(mem, bs[i - 1]);
  }

  /** A block start at the end of block `i` is the start of block `i + 1`, and of no other block. */
  lemma NextStart(mem: seq<int>, bs: seq<int>, i: int, y: int)
    requires Tiled(mem, bs) && 0 <= i < |bs| && 0 <= bs[i] < |mem| && y == End(mem, bs[i]) && y in bs
    ensures i + 1 < |bs| && bs[i + 1] == y
    ensures forall j :: 0 <= j < |bs| && bs[j] == y ==> j == i + 1
  {
    forall j | 0 <= j < |bs| && bs[j] == y
      ensures j == i + 1
    {
      BlockIn(mem, bs, j);
      BlockIn(mem, bs, i);
      if j < i {
        Ordered(mem, bs, j, i);
      } else if i + 1 < j {
        assert Follows(mem, bs, i);
        Ordered(mem, bs, i + 1, j);
      }
    }
    var k := IndexIn(bs, y);
  }

  /** An empty arena holds no block. */
  lemma NoBlocks(mem: seq<int>, bs: seq<int>)
    requires Tiled(mem, bs) && |mem| == 0
    ensures bs == []
  {
  }

  /** Index of a block start in the tiling. */
  lemma IndexIn(bs: seq<int>, x: int) returns (i: int)
    requires x in bs
    ensures 0 <= i < |bs| && bs[i] == x
  {
    i :| 0 <= i < |bs| && bs[i] == x;
  }

  /** A tiling depends only on the header and footer words of its blocks. */
  lemma TiledFrame(mem: seq<int>, mem': seq<int>, bs: seq<int>)
    requires Tiled(mem, bs) && |mem'| == |mem|
    requires forall j :: 0 <= j < |bs| ==>
      mem'[bs[j]] == mem[bs[j]] && mem'[End(mem, bs[j]) - 1] == mem[End(mem, bs[j]) - 1]
    ensures Tiled(mem', bs)
  {
    SegmentFrame(mem, mem', bs, 0, |mem|);
  }

  /** `mem'` holds the same tags as `mem` for every block outside the index range `lo..hi`. */
  ghost predicate TagsKept(mem: seq<int>, mem': seq<int>, bs: seq<int>, lo: int, hi: int)
  {
    && |mem'| == |mem|
    && forall j :: 0 <= j < |bs| && (j < lo || hi < j) && BlockAt(mem, bs[j]) ==>
         mem'[bs[j]] == mem[bs[j]] && mem'[End(mem, bs[j]) - 1] == mem[End(mem, bs[j]) - 1]
  }

  /** A write inside a block of the range `lo..hi` keeps every other block's tags. */
  lemma WriteInRegion(mem: seq<int>, mem1: seq<int>, bs: seq<int>, lo: int, hi: int, i: int, k: int, v: int)
    requires Tiled(mem, bs) && TagsKept(mem, mem1, bs, lo, hi)
    requires lo <= i <= hi && 0 <= i < |bs| && bs[i] <= k < End(mem, bs[i])
    ensures 0 <= k < |mem1| && TagsKept(mem, mem1[k := v], bs, lo, hi)
  {
    LastBlock(mem, bs, i);
    UniqueOwner(mem, bs, i, k);
    forall j | 0 <= j < |bs| && (j < lo || hi < j) && BlockAt(mem, bs[j])
      ensures k != bs[j] && k != End(mem, bs[j]) - 1
    {
      BlockFacts(mem, bs[j]);
    }
  }

  /** A tiling seen around its `i`-th block: the blocks before, the block, the blocks after. */
  lemma Decompose(mem: seq<int>, bs: seq<int>, i: int)
    requires Tiled(mem, bs) && 0 <= i < |bs|
    ensures BlockAt(mem, bs[i]) && End(mem, bs[i]) <= |mem|
    ensures Segment(mem, bs[..i], 0, bs[i])
    ensures Segment(mem, bs[i + 1..], End(mem, bs[i]), |mem|)
  {
    SegmentSlice(mem, bs, 0, |mem|, i);
    assert bs[i..][0] == bs[i];
    if i + 1 < |bs| {
      SegmentSlice(mem, bs[i..], bs[i], |mem|, 1);
      assert bs[i..][1..] == bs[i + 1..];
      assert Follows(mem, bs, i);
    } else {
      assert bs[i + 1..] == [];
    }
    LastBlock(mem, bs, i);
  }

  /** The blocks before index `lo` keep tiling their words when their tags are kept. */
  lemma KeptPrefix(mem: seq<int>, mem': seq<int>, bs: seq<int>, lo: int, hi: int, to: int)
    requires TagsKept(mem, mem', bs, lo, hi) && 0 <= lo <= |bs| && Segment(mem, bs[..lo], 0, to)
    ensures Segment(mem', bs[..lo], 0, to)
  {
    var a := bs[..lo];
    forall j | 0 <= j < |a|
      ensures mem'[a[j]] == mem[a[j]] && mem'[End(mem, a[j]) - 1] == mem[End(mem, a[j]) - 1]
    {
      assert a[j] == bs[j] && BlockAt(mem, bs[j]);
    }
    SegmentFrame(mem, mem', a, 0, to);
  }

  /** The blocks after index `hi` keep tiling their words when their tags are kept. */
  lemma KeptSuffix(mem: seq<int>, mem': seq<int>, bs: seq<int>, lo: int, hi: int, from: int)
    requires TagsKept(mem, mem', bs, lo, hi) && 0 <= hi < |bs| && Segment(mem, bs[hi + 1..], from, |mem|)
    ensures Segment(mem', bs[hi + 1..], from, |mem'|)
  {
    var b := bs[hi + 1..];
    forall j | 0 <= j < |b|
      ensures mem'[b[j]] == mem[b[j]] && mem'[End(mem, b[j]) - 1] == mem[End(mem, b[j]) - 1]
    {
      assert b[j] == bs[hi + 1 + j] && BlockAt(mem, bs[hi + 1 + j]);
    }
    SegmentFrame(mem, mem', b, from, |mem|);
  }

  /** The `k`-th block of a tiling is well formed, spans at least MIN_SIZE and lies in the arena. */
  lemma BlockIn(mem: seq<int>, bs: seq<int>, k: int)
    requires Tiled(mem, bs) && 0 <= k < |bs|
    ensures BlockAt(mem, bs[k]) && 0 <= bs[k] && bs[k] + 4 <= End(mem, bs[k]) <= |mem|
    ensures SizeOf(mem[bs[k]]) == WORD_SIZE * Words(mem[bs[k]]) && SizeOf(mem[bs[k]]) % 8 == 0
  {
    assert BlockAt(mem, bs[k]);
    BlockFacts(mem, bs[k]);
  }

  /** The starts left once the one at `i + 1` is dropped, position by position. */
  lemma DropNext(bs: seq<int>, i: int)
    requires 0 <= i < |bs| - 1
    ensures |bs[..i + 1] + bs[i + 2..]| == |bs| - 1
    ensures forall j :: 0 <= j < |bs| - 1 ==>
      (bs[..i + 1] + bs[i + 2..])[j] == if j <= i then bs[j] else bs[j + 1]
  {
  }

  /** Rewriting one block's tags with the same size and any status keeps the tiling. */
  lemma Retag(mem: seq<int>, mem': seq<int>, bs: seq<int>, i: int)
    requires Tiled(mem, bs) && 0 <= i < |bs| && TagsKept(mem, mem', bs, i, i)
    requires mem'[bs[i]] >= 0 && (mem'[bs[i]] % 8 == 0 || mem'[bs[i]] % 8 == 1)
    requires SizeOf(mem'[bs[i]]) == SizeOf(mem[bs[i]])
    requires mem'[End(mem, bs[i]) - 1] == mem'[bs[i]]
    ensures Tiled(mem', bs)
  {
    Decompose(mem, bs, i);
    RetaggedBlock(mem, mem', bs[i]);
    KeptPrefix(mem, mem', bs, i, i, bs[i]);
    KeptSuffix(mem, mem', bs, i, i, End(mem, bs[i]));
    Assemble(mem', bs[..i], bs[i], bs[i + 1..]);
    assert bs[..i] + [bs[i]] + bs[i + 1..] == bs by { SplitAt(bs, i); }
  }

  lemma SplitAt(bs: seq<int>, i: int)
    requires 0 <= i < |bs|
    ensures bs[..i] + [bs[i]] + bs[i + 1..] == bs
  {
  }

  /** A block between a tiled prefix and a tiled suffix completes a tiling. */
  lemma Assemble(mem: seq<int>, a: seq<int>, b: int, c: seq<int>)
    requires BlockAt(mem, b) && Segment(mem, a, 0, b) && Segment(mem, c, End(mem, b), |mem|)
    ensures Tiled(mem, a + [b] + c)
  {
    SegmentSingle(mem, b);
    SegmentConcat(mem, a, [b], 0, b, End(mem, b));
    SegmentConcat(mem, a + [b], c, 0, End(mem, b), |mem|);
  }

  lemma RetaggedBlock(mem: seq<int>, mem': seq<int>, b: int)
    requires BlockAt(mem, b) && |mem'| == |mem|
    requires mem'[b] >= 0 && (mem'[b] % 8 == 0 || mem'[b] % 8 == 1)
    requires SizeOf(mem'[b]) == SizeOf(mem[b])
    requires mem'[End(mem, b) - 1] == mem'[b]
    ensures BlockAt(mem', b) && End(mem', b) == End(mem, b)
  {
  }

  /**
   * Merging block `i` with its right neighbour: a header at the left block's
   * start and a footer at the right block's end, both holding the sum of the
   * two sizes, leave a tiling without the right block's start.
   */
  lemma Merge(mem: seq<int>, mem': seq<int>, bs: seq<int>, i: int)
    requires Tiled(mem, bs) && 0 <= i < |bs| - 1 && TagsKept(mem, mem', bs, i, i + 1)
    requires mem'[bs[i]] == SizeOf(mem[bs[i]]) + SizeOf(mem[bs[i + 1]])
    requires mem'[End(mem, bs[i + 1]) - 1] == mem'[bs[i]]
    ensures Tiled(mem', bs[..i + 1] + bs[i + 2..])
    ensures End(mem', bs[i]) == End(mem, bs[i + 1])
  {
    Decompose(mem, bs, i + 1);
    MergeFront(mem, mem', bs, i);
    KeptSuffix(mem, mem', bs, i, i + 1, End(mem, bs[i + 1]));
    SegmentConcat(mem', bs[..i + 1], bs[i + 2..], 0, End(mem, bs[i + 1]), |mem'|);
  }

  /** The blocks before the merged one and the merged block tile the arena up to the right block's end. */
  lemma MergeFront(mem: seq<int>, mem': seq<int>, bs: seq<int>, i: int)
    requires Tiled(mem, bs) && 0 <= i < |bs| - 1 && TagsKept(mem, mem', bs, i, i + 1)
    requires mem'[bs[i]] == SizeOf(mem[bs[i]]) + SizeOf(mem[bs[i + 1]])
    requires mem'[End(mem, bs[i + 1]) - 1] == mem'[bs[i]]
    ensures Segment(mem', bs[..i + 1], 0, End(mem, bs[i + 1]))
    ensures End(mem', bs[i]) == End(mem, bs[i + 1])
  {
    Decompose(mem, bs, i);
    MergedBlock(mem, mem', bs, i);
    KeptPrefix(mem, mem', bs, i, i + 1, bs[i]);
    SegmentSingle(mem', bs[i]);
    SegmentConcat(mem', bs[..i], [bs[i]], 0, bs[i], End(mem, bs[i + 1]));
    assert bs[..i] + [bs[i]] == bs[..i + 1];
  }

  lemma MergedBlock(mem: seq<int>, mem': seq<int>, bs: seq<int>, i: int)
    requires Tiled(mem, bs) && 0 <= i < |bs| - 1 && |mem'| == |mem|
    requires mem'[bs[i]] == SizeOf(mem[bs[i]]) + SizeOf(mem[bs[i + 1]])
    requires mem'[End(mem, bs[i + 1]) - 1] == mem'[bs[i]]
    ensures BlockAt(mem', bs[i]) && End(mem', bs[i]) == End(mem, bs[i + 1])
  {
    assert BlockAt(mem, bs[i]) && BlockAt(mem, bs[i + 1]);
    BlockFacts(mem, bs[i]);
    BlockFacts(mem, bs[i + 1]);
    assert Follows(mem, bs, i);
    LastBlock(mem, bs, i + 1);
    var w := Words(mem[bs[i]]) + Words(mem[bs[i + 1]]);
    MultipleOf8Mod(w);
    assert mem'[bs[i]] == 8 * w;
  }

  /**
   * Splitting block `i`: its first `s` bytes become a block tagged with `s`
   * and status `inUse`, the rest a free block of the remainder that starts
   * at `bs[i] + s / 8`.
   */
  lemma Split(mem: seq<int>, mem': seq<int>, bs: seq<int>, i: int, s: nat, inUse: bool)
    requires Tiled(mem, bs) && 0 <= i < |bs| && TagsKept(mem, mem', bs, i, i)
    requires s % 8 == 0 && s >= MIN_SIZE && SizeOf(mem[bs[i]]) - s >= MIN_SIZE
    requires mem'[bs[i]] == Tag(s, inUse) && mem'[bs[i] + s / 8 - 1] == Tag(s, inUse)
    requires mem'[bs[i] + s / 8] == SizeOf(mem[bs[i]]) - s
    requires mem'[End(mem, bs[i]) - 1] == SizeOf(mem[bs[i]]) - s
    ensures Tiled(mem', bs[..i + 1] + [bs[i] + s / 8] + bs[i + 1..])
    ensures End(mem', bs[i]) == bs[i] + s / 8
    ensures End(mem', bs[i] + s / 8) == End(mem, bs[i])
  {
    Decompose(mem, bs, i);
    SplitBlocks(mem, mem', bs, i, s, inUse);
    SplitFront(mem, mem', bs, i, s);
    KeptSuffix(mem, mem', bs, i, i, End(mem, bs[i]));
    SegmentConcat(mem', bs[..i + 1] + [bs[i] + s / 8], bs[i + 1..], 0, End(mem, bs[i]), |mem'|);
  }

  /** The blocks before the split one, the front and the remainder tile the arena up to the old block's end. */
  lemma SplitFront(mem: seq<int>, mem': seq<int>, bs: seq<int>, i: int, s: nat)
    requires Tiled(mem, bs) && 0 <= i < |bs| && TagsKept(mem, mem', bs, i, i)
    requires Segment(mem, bs[..i], 0, bs[i])
    requires BlockAt(mem', bs[i]) && End(mem', bs[i]) == bs[i] + s / 8
    requires BlockAt(mem', bs[i] + s / 8) && End(mem', bs[i] + s / 8) == End(mem, bs[i])
    ensures Segment(mem', bs[..i + 1] + [bs[i] + s / 8], 0, End(mem, bs[i]))
  {
    var r := bs[i] + s / 8;
    KeptPrefix(mem, mem', bs, i, i, bs[i]);
    SegmentSingle(mem', bs[i]);
    SegmentSingle(mem', r);
    SegmentConcat(mem', bs[..i], [bs[i]], 0, bs[i], r);
    SegmentConcat(mem', bs[..i] + [bs[i]], [r], 0, r, End(mem, bs[i]));
    assert bs[..i] + [bs[i]] == bs[..i + 1];
  }

  lemma SplitBlocks(mem: seq<int>, mem': seq<int>, bs: seq<int>, i: int, s: nat, inUse: bool)
    requires Tiled(mem, bs) && 0 <= i < |bs| && |mem'| == |mem|
    requires s % 8 == 0 && s >= MIN_SIZE && SizeOf(mem[bs[i]]) - s >= MIN_SIZE
    requires mem'[bs[i]] == Tag(s, inUse) && mem'[bs[i] + s / 8 - 1] == Tag(s, inUse)
    requires mem'[bs[i] + s / 8] == SizeOf(mem[bs[i]]) - s
    requires mem'[End(mem, bs[i]) - 1] == SizeOf(mem[bs[i]]) - s
    ensures BlockAt(mem', bs[i]) && End(mem', bs[i]) == bs[i] + s / 8
    ensures BlockAt(mem', bs[i] + s / 8) && End(mem', bs[i] + s / 8) == End(mem, bs[i])
  {
    assert BlockAt(mem, bs[i]);
    SplitOne(mem, mem', bs[i], s, inUse);
  }

  /** Splitting the block at `b` into a front of `s` bytes and the remainder gives two blocks. */
  lemma SplitOne(mem: seq<int>, mem': seq<int>, b: int, s: nat, inUse: bool)
    requires BlockAt(mem, b) && |mem'| == |mem|
    requires s % 8 == 0 && s >= MIN_SIZE && SizeOf(mem[b]) - s >= MIN_SIZE
    requires mem'[b] == Tag(s, inUse) && mem'[b + s / 8 - 1] == Tag(s, inUse)
    requires mem'[b + s / 8] == SizeOf(mem[b]) - s
    requires mem'[End(mem, b) - 1] == SizeOf(mem[b]) - s
    ensures BlockAt(mem', b) && End(mem', b) == b + s / 8
    ensures BlockAt(mem', b + s / 8) && End(mem', b + s / 8) == End(mem, b)
  {
    BlockFacts(mem, b);
    var w, q := Words(mem[b]), s / 8;
    assert s == 8 * q;
    MultipleOf8Mod(q);
    MultipleOf8Mod(w - q);
    assert mem'[b + q] == 8 * (w - q);
    assert End(mem', b) == b + q;
    assert End(mem', b + q) == b + w;
  }

  /** Growing the arena by one block of `size` bytes appends that block to the tiling. */
  lemma Append(mem: seq<int>, mem': seq<int>, bs: seq<int>, size: nat, inUse: bool)
    requires Tiled(mem, bs) && size % 8 == 0 && size >= MIN_SIZE
    requires |mem'| == |mem| + size / 8 && mem'[..|mem|] == mem
    requires mem'[|mem|] == Tag(size, inUse) && mem'[|mem'| - 1] == Tag(size, inUse)
    ensures Tiled(mem', bs + [|mem|])
  {
    forall j | 0 <= j < |bs|
      ensures BlockAt(mem', bs[j]) && End(mem', bs[j]) == End(mem, bs[j])
    {
      assert BlockAt(mem, bs[j]);
      LastBlock(mem, bs, j);
      assert mem'[bs[j]] == mem[bs[j]];
      assert mem'[End(mem, bs[j]) - 1] == mem[End(mem, bs[j]) - 1];
    }
    assert Segment(mem', bs, 0, |mem|) by {
      if |bs| > 0 {
        assert End(mem', bs[|bs| - 1]) == |mem|;
      }
      forall i | 0 <= i < |bs| - 1
        ensures Follows(mem', bs, i)
      {
        assert Follows(mem, bs, i);
      }
    }
    assert End(mem', |mem|) == |mem'|;
    SegmentSingle(mem', |mem|);
    SegmentConcat(mem', bs, [|mem|], 0, |mem|, |mem'|);
  }

  /** Retracting the break below the last block leaves the other blocks tiling the shorter arena. */
  lemma Truncate(mem: seq<int>, bs: seq<int>)
    requires Tiled(mem, bs) && |bs| > 0
    ensures 0 <= bs[|bs| - 1] < |mem|
    ensures Tiled(mem[..bs[|bs| - 1]], bs[..|bs| - 1])
  {
    var top := bs[|bs| - 1];
    var mem' := mem[..top];
    var bs' := bs[..|bs| - 1];
    Decompose(mem, bs, |bs| - 1);
    forall j | 0 <= j < |bs'|
      ensures BlockAt(mem', bs'[j]) && End(mem', bs'[j]) == End(mem, bs'[j])
    {
      assert BlockAt(mem, bs[j]);
      Ordered(mem, bs, j, |bs| - 1);
      BlockFacts(mem, bs[j]);
      assert mem'[bs[j]] == mem[bs[j]];
    }
    forall i | 0 <= i < |bs'| - 1
      ensures Follows(mem', bs', i)
    {
      assert Follows(mem, bs, i);
    }
  }

  /** The block whose header is at `b`, as its clients see it. */
  function Info(mem: seq<int>, b: int): BlockInfo
  {
    if 0 <= b < |mem| then BlockInfo(SizeOf(mem[b]), IsAllocated(mem[b])) else BlockInfo(0, false)
  }

  /** The heap as a block sequence: the blocks of `bs` in address order. */
  function View(mem: seq<int>, bs: seq<int>): seq<BlockInfo>
  {
    seq(|bs|, i requires 0 <= i < |bs| => Info(mem, bs[i]))
  }

  /** A tiling spans the whole arena: its block sizes add up to the arena's bytes. */
  lemma TiledTotal(mem: seq<int>, bs: seq<int>)
    requires Tiled(mem, bs)
    ensures Total(View(mem, bs)) == WORD_SIZE * |mem|
  {
    SegmentTotal(mem, bs, 0, |mem|);
  }

  lemma {:induction false} SegmentTotal(mem: seq<int>, bs: seq<int>, from: int, to: int)
    requires Segment(mem, bs, from, to)
    ensures Total(View(mem, bs)) == WORD_SIZE * (to - from)
    decreases |bs|
  {
    if bs != [] {
      var v := View(mem, bs);
      assert BlockAt(mem, bs[0]);
      BlockFacts(mem, bs[0]);
      assert v[1..] == View(mem, bs[1..]);
      if |bs| == 1 {
        assert bs[1..] == [];
      } else {
        SegmentSlice(mem, bs, from, to, 1);
        assert Follows(mem, bs, 0);
      }
      SegmentTotal(mem, bs[1..], End(mem, bs[0]), to);
    }
  }

  /** Rewriting the tags of block `i` alone changes only that block of the view. */
  lemma RetagView(mem: seq<int>, mem': seq<int>, bs: seq<int>, i: int)
    requires Tiled(mem, bs) && 0 <= i < |bs| && TagsKept(mem, mem', bs, i, i)
    ensures View(mem', bs) == View(mem, bs)[i := Info(mem', bs[i])]
  {
    forall j | 0 <= j < |bs| && j != i
      ensures Info(mem', bs[j]) == Info(mem, bs[j])
    {
      assert BlockAt(mem, bs[j]);
    }
  }

  /** Merging block `i` with its right neighbour joins the two in the view. */
  lemma JoinView(mem: seq<int>, mem': seq<int>, bs: seq<int>, i: int)
    requires Tiled(mem, bs) && 0 <= i < |bs| - 1 && TagsKept(mem, mem', bs, i, i + 1)
    requires mem'[bs[i]] == SizeOf(mem[bs[i]]) + SizeOf(mem[bs[i + 1]])
    ensures View(mem', bs[..i + 1] + bs[i + 2..]) == Join(View(mem, bs), i)
  {
    var bs' := bs[..i + 1] + bs[i + 2..];
    var v, v' := View(mem, bs), View(mem', bs');
    assert BlockAt(mem, bs[i]) && BlockAt(mem, bs[i + 1]);
    BlockFacts(mem, bs[i]);
    BlockFacts(mem, bs[i + 1]);
    assert v'[i] == BlockInfo(v[i].size + v[i + 1].size, false);
    forall j | 0 <= j < |bs'| && j != i
      ensures v'[j] == Join(v, i)[j]
    {
      if j < i {
        assert bs'[j] == bs[j] && BlockAt(mem, bs[j]);
      } else {
        assert bs'[j] == bs[j + 1] && BlockAt(mem, bs[j + 1]);
      }
    }
  }

  /** Splitting block `i` puts the front block and the free remainder in its place in the view. */
  lemma SplitView(mem: seq<int>, mem': seq<int>, bs: seq<int>, i: int, s: nat, inUse: bool)
    requires Tiled(mem, bs) && 0 <= i < |bs| && TagsKept(mem, mem', bs, i, i)
    requires s % 8 == 0 && s >= MIN_SIZE && SizeOf(mem[bs[i]]) - s >= MIN_SIZE
    requires mem'[bs[i]] == Tag(s, inUse)
    requires mem'[bs[i] + s / 8] == SizeOf(mem[bs[i]]) - s
    ensures var v := View(mem, bs);
      View(mem', bs[..i + 1] + [bs[i] + s / 8] + bs[i + 1..])
        == v[..i] + [BlockInfo(s, inUse), BlockInfo(SizeOf(mem[bs[i]]) - s, false)] + v[i + 1..]
  {
    var bs' := bs[..i + 1] + [bs[i] + s / 8] + bs[i + 1..];
    var v := View(mem, bs);
    var w := v[..i] + [BlockInfo(s, inUse), BlockInfo(SizeOf(mem[bs[i]]) - s, false)] + v[i + 1..];
    var v' := View(mem', bs');
    assert BlockAt(mem, bs[i]);
    BlockFacts(mem, bs[i]);
    assert v'[i] == w[i];
    assert v'[i + 1] == w[i + 1];
    forall j | 0 <= j < |bs'| && j != i && j != i + 1
      ensures v'[j] == w[j]
    {
      if j < i {
        assert bs'[j] == bs[j] && BlockAt(mem, bs[j]);
      } else {
        assert bs'[j] == bs[j - 1] && BlockAt(mem, bs[j - 1]);
      }
    }
  }

  /** Growing the arena by a block appends it to the view. */
  lemma AppendView(mem: seq<int>, mem': seq<int>, bs: seq<int>, size: nat, inUse: bool)
    requires Tiled(mem, bs) && size % 8 == 0
    requires |mem'| > |mem| && mem'[..|mem|] == mem && mem'[|mem|] == Tag(size, inUse)
    ensures View(mem', bs + [|mem|]) == View(mem, bs) + [BlockInfo(size, inUse)]
  {
    forall j | 0 <= j < |bs|
      ensures Info(mem', bs[j]) == Info(mem, bs[j])
    {
      assert BlockAt(mem, bs[j]);
      assert mem'[bs[j]] == mem[bs[j]];
    }
  }

  /** Retracting the break below the last block drops it from the view. */
  lemma TruncateView(mem: seq<int>, bs: seq<int>)
    requires Tiled(mem, bs) && |bs| > 0 && 0 <= bs[|bs| - 1] <= |mem|
    ensures View(mem[..bs[|bs| - 1]], bs[..|bs| - 1]) == View(mem, bs)[..|bs| - 1]
  {
    var top := bs[|bs| - 1];
    forall j | 0 <= j < |bs| - 1
      ensures Info(mem[..top], bs[j]) == Info(mem, bs[j])
    {
      assert BlockAt(mem, bs[j]);
      Ordered(mem, bs, j, |bs| - 1);
      BlockFacts(mem, bs[j]);
    }
  }
}
