/**
 * The arena-level steps behind `mem_alloc`: handing out a free block whole,
 * splitting it into an allocated front and a free remainder, and growing the
 * arena by one allocated block at its top.
 */
module Placing {
  import opened Layout
  import opened Model
  import opened Arena
  import opened FreeList
  import opened Steps

  /** Every list entry other than block `i` lies wholly before it or after it, its link words included. */
  lemma Outside(mem: seq<int>, bs: seq<int>, F: seq<int>, i: int)
    requires Tiled(mem, bs) && 0 <= i < |bs| && bs[i] !in F
    requires forall x :: x in F ==> x in bs
    ensures BlockAt(mem, bs[i]) && 0 <= bs[i] && bs[i] + 4 <= End(mem, bs[i]) <= |mem|
    ensures forall x :: x in F ==> x + 4 <= bs[i] || End(mem, bs[i]) <= x
  {
    BlockIn(mem, bs, i);
    forall x | x in F
      ensures x + 4 <= bs[i] || End(mem, bs[i]) <= x
    {
      var j := IndexIn(bs, x);
      BlockIn(mem, bs, j);
      if j < i {
        Ordered(mem, bs, j, i);
      } else {
        Ordered(mem, bs, i, j);
      }
    }
  }

  /** Every block other than `i` starts before it or at or after its end. */
  lemma OtherBlock(mem: seq<int>, bs: seq<int>, i: int, k: int)
    requires Tiled(mem, bs) && 0 <= i < |bs| && 0 <= k < |bs| && k != i
    ensures 0 <= bs[k] < |mem| && 0 <= bs[i] < |mem|
    ensures bs[k] < bs[i] || End(mem, bs[i]) <= bs[k]
  {
    BlockIn(mem, bs, i);
    BlockIn(mem, bs, k);
    if k < i {
      Ordered(mem, bs, k, i);
    } else {
      Ordered(mem, bs, i, k);
    }
  }

  /** The starts after a split: those up to `i`, the remainder `r`, then the rest. */
  lemma SplitStarts(bs: seq<int>, i: int, r: int)
    requires 0 <= i < |bs|
    ensures var bs' := bs[..i + 1] + [r] + bs[i + 1..];
      && |bs'| == |bs| + 1 && r in bs'
      && (forall j :: 0 <= j <= i ==> bs'[j] == bs[j])
      && bs'[i + 1] == r
      && (forall j :: i + 1 < j < |bs'| ==> bs'[j] == bs[j - 1])
      && (forall x :: x in bs ==> x in bs')
  {
    var bs' := bs[..i + 1] + [r] + bs[i + 1..];
    forall x | x in bs
      ensures x in bs'
    {
      var k := IndexIn(bs, x);
      if k <= i {
        assert bs'[k] == x;
      } else {
        assert bs'[k + 1] == x;
      }
    }
  }

  /**
   * Writing `a` and then `c` commutes with `free_list_add` of `p` when
   * neither is a word that call writes.
   */
  lemma TagsAfterAdd(m: seq<int>, head: int, p: int, a: int, c: int, t: int)
    requires 0 <= p && p + 2 < |m| && 0 <= a < |m| && 0 <= c < |m|
    requires head != NULL ==> 0 <= head && head + 2 < |m| && 0 <= m[head + 2] && m[head + 2] + 2 < |m|
    requires a != p + 1 && a != p + 2 && c != p + 1 && c != p + 2
    requires head != NULL ==> a != head + 2 && c != head + 2 && a != m[head + 2] + 1 && c != m[head + 2] + 1
    ensures AddLinks(m, head, p)[a := t][c := t] == AddLinks(m[a := t][c := t], head, p)
  {
  }

  /**
   * Where a split of block `i` for `size` bytes puts things: the front is
   * block `b`, the free remainder of `rem` bytes starts at `r` and ends
   * where block `i` ended.
   */
  ghost predicate CutAt(mem: seq<int>, bs: seq<int>, i: int, size: int, b: int, r: int, rem: int)
  {
    && 0 <= i < |bs| && b == bs[i] && 0 <= b < |mem|
    && r == b + size / WORD_SIZE && rem == mem[b] - size
    && size % 8 == 0 && size >= MIN_SIZE && rem >= MIN_SIZE
  }

  lemma SplitArith(mem: seq<int>, bs: seq<int>, i: int, size: int, b: int, r: int, rem: int)
    requires Tiled(mem, bs) && CutAt(mem, bs, i, size, b, r, rem) && !View(mem, bs)[i].inUse
    ensures 0 <= b && b + 4 <= r && r + 4 <= End(mem, b) <= |mem| && rem % 8 == 0 && !IsAllocated(rem)
    ensures SizeOf(mem[b]) == mem[b] && r + rem / WORD_SIZE == End(mem, b)
  {
    FreeAt(mem, bs, i);
    BlockIn(mem, bs, i);
    var w, q := Words(mem[b]), size / 8;
    assert mem[b] == 8 * w && size == 8 * q;
    assert rem == 8 * (w - q);
    MultipleOf8Mod(w - q);
  }

  /** The four tag writes of a split all lie inside block `i`, so every other block keeps its tags. */
  lemma SplitKept(mem: seq<int>, bs: seq<int>, i: int, size: int, b: int, r: int, rem: int, S: seq<int>)
    requires Tiled(mem, bs) && 0 <= i < |bs| && b == bs[i] && size % 8 == 0 && size >= 0
    requires b + 4 <= r && r + 4 <= End(mem, b) <= |mem|
    requires S == mem[r := rem][End(mem, b) - 1 := rem][b := Tag(size, true)][r - 1 := Tag(size, true)]
    ensures TagsKept(mem, S, bs, i, i)
  {
    var T, E := Tag(size, true), End(mem, b);
    var m1 := mem[r := rem];
    var m2 := m1[E - 1 := rem];
    var m3 := m2[b := T];
    assert TagsKept(mem, mem, bs, i, i);
    WriteInRegion(mem, mem, bs, i, i, i, r, rem);
    WriteInRegion(mem, m1, bs, i, i, i, E - 1, rem);
    WriteInRegion(mem, m2, bs, i, i, i, b, T);
    WriteInRegion(mem, m3, bs, i, i, i, r - 1, T);
  }

  /**
   * After the four tag writes of a split, the tiling and the view split
   * block `i` into the allocated front and the free remainder.
   */
  lemma SplitTiles(mem: seq<int>, bs: seq<int>, i: int, size: int, b: int, r: int, rem: int, bs': seq<int>, S: seq<int>)
    requires Tiled(mem, bs) && CutAt(mem, bs, i, size, b, r, rem) && !View(mem, bs)[i].inUse
    requires b + 4 <= r && r + 4 <= End(mem, b) <= |mem| && SizeOf(mem[b]) == mem[b]
    requires bs' == bs[..i + 1] + [r] + bs[i + 1..]
    requires S == mem[r := rem][End(mem, b) - 1 := rem][b := Tag(size, true)][r - 1 := Tag(size, true)]
    ensures Tiled(S, bs') && View(S, bs') == Place(View(mem, bs), i, size)
  {
    assert View(mem, bs)[i] == Info(mem, b);
    SplitKept(mem, bs, i, size, b, r, rem, S);
    SplitTiled(mem, bs, i, size, b, r, rem, bs', S);
    SplitViewed(mem, bs, i, size, b, r, rem, bs', S);
    PlaceSplits(View(mem, bs), i, size, rem);
  }

  lemma PlaceSplits(v: seq<BlockInfo>, i: int, size: int, rem: int)
    requires 0 <= i < |v| && rem == v[i].size - size >= MIN_SIZE
    ensures Place(v, i, size) == v[..i] + [BlockInfo(size, true), BlockInfo(rem, false)] + v[i + 1..]
  {
  }

  lemma SplitTiled(mem: seq<int>, bs: seq<int>, i: int, size: int, b: int, r: int, rem: int, bs': seq<int>, S: seq<int>)
    requires Tiled(mem, bs) && CutAt(mem, bs, i, size, b, r, rem) && TagsKept(mem, S, bs, i, i)
    requires b + 4 <= r && r + 4 <= End(mem, b) <= |mem| && SizeOf(mem[b]) == mem[b]
    requires bs' == bs[..i + 1] + [r] + bs[i + 1..]
    requires S == mem[r := rem][End(mem, b) - 1 := rem][b := Tag(size, true)][r - 1 := Tag(size, true)]
    ensures Tiled(S, bs')
  {
    assert r == bs[i] + size / 8 && bs' == bs[..i + 1] + [bs[i] + size / 8] + bs[i + 1..];
    assert S[b] == Tag(size, true) && S[r - 1] == Tag(size, true);
    assert S[r] == rem && S[End(mem, b) - 1] == rem;
    Split(mem, S, bs, i, size, true);
  }

  lemma SplitViewed(mem: seq<int>, bs: seq<int>, i: int, size: int, b: int, r: int, rem: int, bs': seq<int>, S: seq<int>)
    requires Tiled(mem, bs) && CutAt(mem, bs, i, size, b, r, rem) && TagsKept(mem, S, bs, i, i)
    requires b + 4 <= r && r + 4 <= End(mem, b) <= |mem| && SizeOf(mem[b]) == mem[b]
    requires bs' == bs[..i + 1] + [r] + bs[i + 1..]
    requires S == mem[r := rem][End(mem, b) - 1 := rem][b := Tag(size, true)][r - 1 := Tag(size, true)]
    ensures View(S, bs') == View(mem, bs)[..i] + [BlockInfo(size, true), BlockInfo(rem, false)] + View(mem, bs)[i + 1..]
  {
    assert r == bs[i] + size / 8 && bs' == bs[..i + 1] + [bs[i] + size / 8] + bs[i + 1..];
    assert S[b] == Tag(size, true) && S[r] == rem;
    SplitView(mem, S, bs, i, size, true);
  }

  /**
   * After the tag writes of a split, the list is untouched, every entry is
   * still a free block of the new tiling, and the remainder is the only
   * free block that may be missing from it.
   */
  lemma SplitList(mem: seq<int>, bs: seq<int>, F: seq<int>, head: int, i: int, b: int, r: int, bs': seq<int>, S: seq<int>)
    requires Fit(mem, bs, F, head) && 0 <= i < |bs| && b == bs[i] && b !in F
    requires 0 <= b && b + 4 <= r && r + 4 <= End(mem, b) <= |mem|
    requires bs' == bs[..i + 1] + [r] + bs[i + 1..]
    requires |S| == |mem| && IsAllocated(S[b])
    requires forall k :: 0 <= k < |mem| && (k < b || End(mem, b) <= k) ==> S[k] == mem[k]
    ensures ListWF(S, F, head) && ListedFree(S, F, bs') && r in bs' && r !in F
    ensures forall y :: y in F ==> y in bs'
    ensures ListedBut(mem, bs, F, b) ==> ListedBut(S, bs', F, r)
  {
    Outside(mem, bs, F, i);
    SplitStarts(bs, i, r);
    ListFrame(mem, S, F, head);
    if ListedBut(mem, bs, F, b) {
      forall j | 0 <= j < |bs'| && bs'[j] != r && 0 <= bs'[j] < |S| && !IsAllocated(S[bs'[j]])
        ensures bs'[j] in F
      {
        var k := if j <= i then j else j - 1;
        assert bs'[j] == bs[k];
        OtherBlock(mem, bs, i, k);
        Distinct(mem, bs, i, k);
      }
    }
  }

  /** The head of the list and its tail lie wholly outside block `i`, which is not on the list. */
  lemma EndsOutside(mem: seq<int>, bs: seq<int>, F: seq<int>, head: int, i: int)
    requires Fit(mem, bs, F, head) && 0 <= i < |bs| && bs[i] !in F
    ensures head != NULL ==> 0 <= head && head + 2 < |mem| && 0 <= mem[head + 2] && mem[head + 2] + 2 < |mem|
    ensures head != NULL ==> head + 4 <= bs[i] || End(mem, bs[i]) <= head
    ensures head != NULL ==> mem[head + 2] + 4 <= bs[i] || End(mem, bs[i]) <= mem[head + 2]
  {
    Outside(mem, bs, F, i);
    if head != NULL {
      assert head == F[0] && mem[head + 2] == F[|F| - 1];
      assert F[0] in F && F[|F| - 1] in F;
    }
  }

  /**
   * `mem_alloc` splitting block `i`, free and off the list, for `size`
   * bytes, once the writes are done: the remainder's tags (giving `m1`),
   * `free_list_add` of the remainder, then the front's tag `t`. The heap
   * is fit with the remainder at the head of the list, the view is
   * `Place`, and no free block is missing from the list if only block `i`
   * was before.
   */
  lemma SplitDone(mem: seq<int>, bs: seq<int>, F: seq<int>, head: int, i: int, size: int,
                  b: int, r: int, rem: int, bs': seq<int>, m1: seq<int>, t: int, m: seq<int>)
    requires Fit(mem, bs, F, head) && CutAt(mem, bs, i, size, b, r, rem)
    requires b !in F && !View(mem, bs)[i].inUse && bs' == bs[..i + 1] + [r] + bs[i + 1..]
    requires 0 <= r && r + 2 < |mem| && 0 <= r + rem / WORD_SIZE - 1 < |mem|
    requires m1 == mem[r := rem][r + rem / WORD_SIZE - 1 := rem]
    requires head != NULL ==> 0 <= head && head + 2 < |m1| && 0 <= m1[head + 2] && m1[head + 2] + 2 < |m1|
    requires t == Tag(size, true) && 0 <= b + SizeOf(t) / WORD_SIZE - 1 < |mem|
    requires m == AddLinks(m1, head, r)[b := t][b + SizeOf(t) / WORD_SIZE - 1 := t]
    ensures Fit(m, bs', [r] + F, r) && View(m, bs') == Place(View(mem, bs), i, size)
    ensures ListedBut(mem, bs, F, b) ==> AllFreeListed(m, bs', [r] + F)
  {
    SplitArith(mem, bs, i, size, b, r, rem);
    assert b + SizeOf(t) / WORD_SIZE - 1 == r - 1;
    var S := m1[b := t][r - 1 := t];
    SplitCommute(mem, bs, F, head, i, b, r, m1, t, S);
    SplitAdded(mem, bs, F, head, i, size, b, r, rem, bs', m1, t, S);
    assert m == AddLinks(S, head, r);
  }

  /**
   * The split of the hit branch of `mem_alloc`, planned from the state
   * after the block left the list: `m1` is the arena once the remainder
   * has its tags, ready for `free_list_add(remain)`, and `m` the arena
   * once the front is also tagged in use. The result is fit with the
   * remainder at the head of the list, and its view is `Place`.
   */
  lemma SplitPlan(mem: seq<int>, bs: seq<int>, F: seq<int>, head: int, i: int, size: int,
                  b: int, r: int, rem: int, bs': seq<int>, t: int) returns (m1: seq<int>, m: seq<int>)
    requires Fit(mem, bs, F, head) && 0 <= i < |bs| && b == bs[i] && b !in F && !View(mem, bs)[i].inUse
    requires 0 <= b < |mem| && size % 8 == 0 && size >= MIN_SIZE && rem == mem[b] - size && rem >= MIN_SIZE
    requires r == b + size / WORD_SIZE && bs' == bs[..i + 1] + [r] + bs[i + 1..] && t == Tag(size, true)
    ensures 0 <= r && r + 2 < |mem| && 0 <= r + rem / WORD_SIZE - 1 < |mem|
    ensures m1 == mem[r := rem][r + rem / WORD_SIZE - 1 := rem]
    ensures ListWF(m1, F, head) && ApartAll(F, r)
    ensures head != NULL ==> 0 <= head && head + 2 < |m1| && 0 <= m1[head + 2] && m1[head + 2] + 2 < |m1|
    ensures 0 <= b + SizeOf(t) / WORD_SIZE - 1 < |mem| && b + SizeOf(t) / WORD_SIZE - 1 != b
    ensures m == AddLinks(m1, head, r)[b := t][b + SizeOf(t) / WORD_SIZE - 1 := t]
    ensures Fit(m, bs', [r] + F, r) && View(m, bs') == Place(View(mem, bs), i, size)
    ensures ListedBut(mem, bs, F, b) ==> AllFreeListed(m, bs', [r] + F)
    ensures i < |bs'| && bs'[i] == b && 0 <= b < |m| && IsAllocated(m[b]) && SizeOf(m[b]) == size
  {
    SplitArith(mem, bs, i, size, b, r, rem);
    m1 := mem[r := rem][r + rem / WORD_SIZE - 1 := rem];
    SplitReady(mem, bs, F, head, i, b, r, rem, m1);
    m := AddLinks(m1, head, r)[b := t][b + SizeOf(t) / WORD_SIZE - 1 := t];
    SplitDone(mem, bs, F, head, i, size, b, r, rem, bs', m1, t, m);
  }

  /**
   * Writing the remainder's tags keeps the list, which lies outside block
   * `i`, and leaves the remainder apart from every entry: ready for
   * `free_list_add`.
   */
  lemma SplitReady(mem: seq<int>, bs: seq<int>, F: seq<int>, head: int, i: int, b: int, r: int, rem: int, m1: seq<int>)
    requires Fit(mem, bs, F, head) && 0 <= i < |bs| && b == bs[i] && b !in F
    requires 0 <= b && b + 4 <= r && r + 4 <= End(mem, b) <= |mem| && r + rem / WORD_SIZE == End(mem, b)
    requires m1 == mem[r := rem][r + rem / WORD_SIZE - 1 := rem]
    ensures ListWF(m1, F, head) && ApartAll(F, r) && 0 <= r && r + 2 < |m1|
    ensures |m1| == |mem| && forall k :: 0 <= k < |mem| && (k < r || End(mem, b) <= k) ==> m1[k] == mem[k]
  {
    Outside(mem, bs, F, i);
    ListFrame(mem, m1, F, head);
  }

  /**
   * The front's tags, written after `free_list_add` of the remainder, land
   * on words that call does not write, so the order of the two does not
   * matter.
   */
  lemma SplitCommute(mem: seq<int>, bs: seq<int>, F: seq<int>, head: int, i: int,
                     b: int, r: int, m1: seq<int>, t: int, S: seq<int>)
    requires Fit(mem, bs, F, head) && 0 <= i < |bs| && b == bs[i] && b !in F
    requires 0 <= b && b + 4 <= r && r + 4 <= End(mem, b) <= |mem|
    requires |m1| == |mem| && forall k :: 0 <= k < |mem| && (k < r || End(mem, b) <= k) ==> m1[k] == mem[k]
    requires S == m1[b := t][r - 1 := t]
    ensures head != NULL ==> 0 <= head && head + 2 < |m1| && 0 <= m1[head + 2] && m1[head + 2] + 2 < |m1|
    ensures head != NULL ==> head + 2 != b && head + 2 != r - 1
    ensures AddLinks(m1, head, r)[b := t][r - 1 := t] == AddLinks(S, head, r)
  {
    EndsOutside(mem, bs, F, head, i);
    if head != NULL {
      assert m1[head + 2] == mem[head + 2];
    }
    TagsAfterAdd(m1, head, r, b, r - 1, t);
  }

  /** `SplitDone` with the front's tags written before `free_list_add` of the remainder. */
  lemma SplitAdded(mem: seq<int>, bs: seq<int>, F: seq<int>, head: int, i: int, size: int,
                   b: int, r: int, rem: int, bs': seq<int>, m1: seq<int>, t: int, S: seq<int>)
    requires Fit(mem, bs, F, head) && CutAt(mem, bs, i, size, b, r, rem)
    requires b !in F && !View(mem, bs)[i].inUse && bs' == bs[..i + 1] + [r] + bs[i + 1..]
    requires 0 <= b && b + 4 <= r && r + 4 <= End(mem, b) <= |mem|
    requires r + rem / WORD_SIZE == End(mem, b) && SizeOf(mem[b]) == mem[b] && !IsAllocated(rem)
    requires m1 == mem[r := rem][r + rem / WORD_SIZE - 1 := rem]
    requires t == Tag(size, true) && S == m1[b := t][r - 1 := t]
    ensures 0 <= r && r + 2 < |S|
    ensures head != NULL ==> 0 <= head && head + 2 < |S| && 0 <= S[head + 2] && S[head + 2] + 2 < |S|
    ensures Fit(AddLinks(S, head, r), bs', [r] + F, r)
    ensures View(AddLinks(S, head, r), bs') == Place(View(mem, bs), i, size)
    ensures ListedBut(mem, bs, F, b) ==> AllFreeListed(AddLinks(S, head, r), bs', [r] + F)
  {
    SplitTiles(mem, bs, i, size, b, r, rem, bs', S);
    SplitList(mem, bs, F, head, i, b, r, bs', S);
    AddKept(S, bs', F, head, r, r);
    if ListedBut(mem, bs, F, b) {
      ListedAll(AddLinks(S, head, r), bs', [r] + F, r);
    }
  }

  /**
   * `mem_alloc` taking block `i`, free and off the list, whole for `size`
   * bytes: setting the allocation bit in its header and footer. The heap
   * stays fit with the same list, the view is `Place`, and no free block
   * is missing from the list if only block `i` was before.
   */
  lemma MarkKept(mem: seq<int>, bs: seq<int>, F: seq<int>, head: int, i: int, size: int, t: int, m: seq<int>)
    requires Fit(mem, bs, F, head) && 0 <= i < |bs| && bs[i] !in F && !View(mem, bs)[i].inUse
    requires 0 <= bs[i] < |mem| && mem[bs[i]] % 8 == 0 && mem[bs[i]] - size < MIN_SIZE
    requires t == Tag(mem[bs[i]], true) && 0 <= bs[i] + SizeOf(t) / WORD_SIZE - 1 < |mem|
    requires m == mem[bs[i] := t][bs[i] + SizeOf(t) / WORD_SIZE - 1 := t]
    ensures Fit(m, bs, F, head) && View(m, bs) == Place(View(mem, bs), i, size)
    ensures ListedBut(mem, bs, F, bs[i]) ==> AllFreeListed(m, bs, F)
  {
    var b := bs[i];
    MarkTiles(mem, bs, i, size, t, m);
    Outside(mem, bs, F, i);
    ListFrame(mem, m, F, head);
    forall j | 0 <= j < |bs| && j != i
      ensures 0 <= bs[j] < |mem| && m[bs[j]] == mem[bs[j]] && bs[j] != b
    {
      OtherBlock(mem, bs, i, j);
    }
  }

  /** Setting the allocation bit of the free block `i` keeps the tiling and marks the block in use in the view. */
  lemma MarkTiles(mem: seq<int>, bs: seq<int>, i: int, size: int, t: int, m: seq<int>)
    requires Tiled(mem, bs) && 0 <= i < |bs| && !View(mem, bs)[i].inUse
    requires 0 <= bs[i] < |mem| && mem[bs[i]] % 8 == 0 && mem[bs[i]] - size < MIN_SIZE
    requires t == Tag(mem[bs[i]], true) && 0 <= bs[i] + SizeOf(t) / WORD_SIZE - 1 < |mem|
    requires m == mem[bs[i] := t][bs[i] + SizeOf(t) / WORD_SIZE - 1 := t]
    ensures Tiled(m, bs) && View(m, bs) == Place(View(mem, bs), i, size)
    ensures |m| == |mem| && IsAllocated(m[bs[i]])
    ensures forall k :: 0 <= k < |mem| && (k < bs[i] || End(mem, bs[i]) <= k) ==> m[k] == mem[k]
  {
    var b := bs[i];
    FreeAt(mem, bs, i);
    BlockIn(mem, bs, i);
    assert b + SizeOf(t) / WORD_SIZE - 1 == End(mem, b) - 1;
    var m1 := mem[b := t];
    assert TagsKept(mem, mem, bs, i, i);
    WriteInRegion(mem, mem, bs, i, i, i, b, t);
    WriteInRegion(mem, m1, bs, i, i, i, End(mem, b) - 1, t);
    Retag(mem, m, bs, i);
    RetagView(mem, m, bs, i);
    assert View(mem, bs)[i] == Info(mem, b);
  }

  /**
   * `mem_alloc` growing the arena by `size` bytes (read as zero) and tagging
   * them as one allocated block: the heap stays fit with the same list, the
   * view gains the block at its end, and a complete list stays complete.
   */
  lemma GrowKept(mem: seq<int>, bs: seq<int>, F: seq<int>, head: int, size: int, t: int, m: seq<int>)
    requires Fit(mem, bs, F, head) && size % 8 == 0 && size >= MIN_SIZE
    requires t == Tag(size, true)
    requires m == (mem + seq(size / WORD_SIZE, _ => 0))[|mem| := t][|mem| + SizeOf(t) / WORD_SIZE - 1 := t]
    ensures Fit(m, bs + [|mem|], F, head) && View(m, bs + [|mem|]) == Grow(View(mem, bs), size)
    ensures AllFreeListed(mem, bs, F) ==> AllFreeListed(m, bs + [|mem|], F)
  {
    var bs' := bs + [|mem|];
    assert m[..|mem|] == mem;
    Append(mem, m, bs, size, true);
    AppendView(mem, m, bs, size, true);
    ListFrame(mem, m, F, head);
    forall j | 0 <= j < |bs|
      ensures bs'[j] == bs[j] && 0 <= bs[j] < |mem| && m[bs[j]] == mem[bs[j]]
    {
      BlockIn(mem, bs, j);
    }
  }
}
