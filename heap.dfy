/**
 * The allocator's state and operations. The C globals `heap_start`,
 * `heap_end` and `free_list` and the arena words they delimit become the
 * fields of one `Allocator`: `heap_start` is word 0, `heap_end` is `|mem|`,
 * and a pointer is a word index (a payload pointer is its header's index
 * plus one). `sbrk` growth is the arena growing at its top; whether the
 * system grants it is the `brkOk` argument.
 */
module Heap {
  import opened Layout
  import opened Model
  import opened Arena
  import opened FreeList
  import opened Steps
  import opened Placing
  import opened Liveness

  class Allocator {
    /** The arena words `[heap_start, heap_end)`. */
    var mem: seq<int>
    /** `free_list`: the first block of the free list, or NULL. */
    var freeList: int
    /** The `init` flag of `mem_alloc`: the heap has been started. */
    var initialized: bool

    /** The block starts in address order. */
    ghost var Blocks: seq<int>
    /** The free list in `next` order from `freeList`. */
    ghost var Free: seq<int>

    /**
     * The arena is tiled by well-formed blocks, the free list is a
     * well-formed circular list of free blocks, and the arena is empty
     * until the heap is started.
     */
    ghost predicate Consistent()
      reads this
    {
      && Tiled(mem, Blocks)
      && ListWF(mem, Free, freeList)
      && ListedFree(mem, Free, Blocks)
      && (!initialized ==> mem == [])
    }

    /**
     * Valid, or valid but for the block at `x`, which is free and off the
     * list: the state `mem_free` leaves when it loses that block.
     */
    ghost predicate ValidUnlessLost(x: int)
      reads this
    {
      Valid() || (Consistent() && x in Blocks && x !in Free && ListedBut(mem, Blocks, Free, x))
    }

    /** Consistent, and no free block is missing from the list. */
    ghost predicate Valid()
      reads this
    {
      Consistent() && AllFreeListed(mem, Blocks, Free)
    }

    constructor ()
      ensures Valid() && !initialized
      ensures mem == [] && freeList == NULL && Blocks == [] && Free == []
    {
      mem := [];
      freeList := NULL;
      initialized := false;
      Blocks := [];
      Free := [];
    }

    /** `init_heap`: the heap starts empty, `heap_end` at `heap_start`. */
    method InitHeap()
      requires Consistent() && !initialized
      modifies this
      ensures Valid() && mem == [] && Blocks == [] && Free == []
      ensures freeList == old(freeList) && initialized == old(initialized)
    {
      NoBlocks(mem, Blocks);
      NoEntries(mem, Free, freeList);
      mem := [];
    }

    /**
     * `free_list_add`: `p` becomes the head of the list, linked to itself
     * on an empty list and otherwise between the old tail and the old head.
     * The tail is read before any link is written; `p` is apart from every
     * entry, so the C order of reads and writes gives the same words.
     */
    method FreeListAdd(p: int)
      requires ListWF(mem, Free, freeList) && 0 <= p && p + 2 < |mem|
      requires ApartAll(Free, p)
      modifies this
      ensures old(freeList) != NULL ==>
        0 <= old(freeList) && old(freeList) + 2 < |old(mem)|
        && 0 <= old(mem)[old(freeList) + 2] && old(mem)[old(freeList) + 2] + 2 < |old(mem)|
      ensures mem == AddLinks(old(mem), old(freeList), p)
      ensures freeList == p && Free == [p] + old(Free)
      ensures ListWF(mem, Free, freeList)
      ensures Blocks == old(Blocks) && initialized == old(initialized)
    {
      ghost var mem0, free0, head0 := mem, Free, freeList;
      HeadBounds(mem, Free, freeList);
      if freeList == NULL {
        freeList := p;
        mem := mem[p + 1 := p];
        mem := mem[p + 2 := p];
      } else {
        var last := mem[freeList + 2];
        mem := mem[p + 1 := freeList];
        mem := mem[p + 2 := last];
        mem := mem[last + 1 := p];
        mem := mem[freeList + 2 := p];
        freeList := p;
      }
      Free := [p] + Free;
      assert mem == AddLinks(mem0, head0, p);
      AddLinksWF(mem0, free0, head0, p);
    }

    /**
     * `free_list_remove`: an entry leaves the list (a sole entry empties it,
     * the head passes the head to its successor). On a block that already
     * left the list, whose stale links join two entries that are already
     * linked to each other, it writes nothing.
     */
    method FreeListRemove(p: int)
      requires ListWF(mem, Free, freeList)
      requires p in Free || StaleUnlinked(mem, Free, p)
      modifies this
      ensures 0 <= p && p + 2 < |old(mem)|
      ensures old(mem)[p + 1] != p ==>
        0 <= old(mem)[p + 1] && old(mem)[p + 1] + 2 < |old(mem)|
        && 0 <= old(mem)[p + 2] && old(mem)[p + 2] + 2 < |old(mem)|
      ensures mem == RemoveLinks(old(mem), p) && freeList == RemoveHead(old(mem), old(freeList), p)
      ensures p in old(Free) ==> Free == Without(old(Free), p) && StaleUnlinked(mem, Free, p)
      ensures p !in old(Free) ==> mem == old(mem) && freeList == old(freeList) && Free == old(Free)
      ensures ListWF(mem, Free, freeList)
      ensures Blocks == old(Blocks) && initialized == old(initialized)
    {
      ghost var mem0, free0, head0 := mem, Free, freeList;
      RemoveBounds(mem, Free, freeList, p);
      var next := mem[p + 1];
      var previous := mem[p + 2];
      if next == p {
        freeList := NULL;
      } else {
        if freeList == p {
          freeList := next;
        }
        mem := mem[previous + 1 := next];
        mem := mem[next + 2 := previous];
      }
      assert mem == RemoveLinks(mem0, p) && freeList == RemoveHead(mem0, head0, p);
      Free := if p in Free then Without(Free, p) else Free;
      RemoveEffect(mem0, free0, head0, p, mem, freeList);
    }

    /**
     * `find_free_block`: one lap of the list from the head, keeping the
     * first block met among those of the smallest size that is at least
     * `size`; NULL when the list is empty or no block is large enough.
     */
    method FindFreeBlock(size: int) returns (best: int)
      requires ListWF(mem, Free, freeList)
      ensures best == BestFitBlock(mem, Free, size)
    {
      EntriesInRange(mem, Free, freeList);
      if freeList == NULL {
        return NULL;
      }
      var it := freeList;
      var start := freeList;
      best := NULL;
      ghost var k := 0;
      ghost var b := -1;
      while true
        invariant 0 <= k < |Free| && it == Free[k]
        invariant b == BestFit(mem, Free, size, k)
        invariant best == if b == -1 then NULL else Free[b]
        decreases |Free| - k
      {
        if mem[it] >= size {
          if best == NULL || mem[it] < mem[best] {
            best := it;
          }
        }
        b := BestFit(mem, Free, size, k + 1);
        Successor(mem, Free, freeList, k);
        it := mem[it + 1];
        k := k + 1;
        if it == start {
          assert k == |Free|;
          break;
        }
      }
    }

    /**
     * `coalesce_right` on the free block `p`, block `i`, which is not the
     * last one: when its right neighbour is free the two become one free
     * block at `p`, the right block leaves the list and the joined block
     * enters it at the head; otherwise nothing changes. `coalesce` comes
     * back set when the merge happens and is passed through otherwise.
     */
    method CoalesceRight(p: int, coalesce: bool, ghost i: int) returns (q: int, merged: bool)
      requires Fit(mem, Blocks, Free, freeList) && 0 <= i < |Blocks| - 1 && p == Blocks[i]
      requires !View(mem, Blocks)[i].inUse && p !in Free && NeighboursListed(mem, Blocks, Free, i)
      modifies this
      ensures q == p && merged == (coalesce || !old(View(mem, Blocks))[i + 1].inUse)
      ensures Fit(mem, Blocks, Free, freeList) && initialized == old(initialized)
      ensures i < |Blocks| && Blocks[i] == p && LeftListed(mem, Blocks, Free, i)
      ensures old(View(mem, Blocks))[i + 1].inUse ==>
        mem == old(mem) && Blocks == old(Blocks) && Free == old(Free) && freeList == old(freeList)
      ensures !old(View(mem, Blocks))[i + 1].inUse ==>
        && View(mem, Blocks) == Join(old(View(mem, Blocks)), i)
        && Blocks == old(Blocks)[..i + 1] + old(Blocks)[i + 2..]
        && old(Blocks)[i + 1] in old(Free) && Free == [p] + Without(old(Free), old(Blocks)[i + 1])
        && freeList == p
        && (ListedBut(old(mem), old(Blocks), old(Free), p) ==> AllFreeListed(mem, Blocks, Free))
      ensures KeepsLive(old(mem), old(Blocks), mem, Blocks)
    {
      ghost var m0, bs := mem, Blocks;
      FreeAt(mem, Blocks, i);
      var next := p + mem[p] / WORD_SIZE;
      var nextSize := mem[next];
      merged := coalesce;
      q := p;
      if nextSize % 2 == 0 {
        merged := true;
        AbsorbNext(p, next, i);
        JoinKeepsLive(m0, bs, mem, Blocks, i);
      }
    }

    /**
     * The merging branch of `coalesce_right`: the free block `p` (block
     * `i`) absorbs its free right neighbour `next`, which leaves the list,
     * and the joined block enters the list at the head.
     */
    method AbsorbNext(p: int, next: int, ghost i: int)
      requires Fit(mem, Blocks, Free, freeList) && 0 <= i < |Blocks| - 1
      requires p == Blocks[i] && next == Blocks[i + 1] && p !in Free && next in Free
      requires !View(mem, Blocks)[i].inUse && !View(mem, Blocks)[i + 1].inUse
      modifies this
      ensures Fit(mem, Blocks, Free, freeList) && initialized == old(initialized)
      ensures View(mem, Blocks) == Join(old(View(mem, Blocks)), i)
      ensures Blocks == old(Blocks)[..i + 1] + old(Blocks)[i + 2..]
      ensures Free == [p] + Without(old(Free), next) && freeList == p
      ensures ListedBut(old(mem), old(Blocks), old(Free), p) ==> AllFreeListed(mem, Blocks, Free)
      ensures LeftListed(old(mem), old(Blocks), old(Free), i) ==> LeftListed(mem, Blocks, Free, i)
    {
      ghost var m0, bs, F, head := mem, Blocks, Free, freeList;
      FreeAt(mem, Blocks, i);
      FreeAt(mem, Blocks, i + 1);
      var nextSize := mem[next] + mem[p];
      ghost var bs' := bs[..i + 1] + bs[i + 2..];
      ghost var m1, m2, F2, h2 := AbsorbPlan(m0, bs, F, head, i, p, next, nextSize, bs');
      mem := mem[p := nextSize][p + SizeOf(nextSize) / WORD_SIZE - 1 := nextSize];
      Blocks := Blocks[..i + 1] + Blocks[i + 2..];
      FreeListRemove(next);
      FreeListAdd(p);
      assert mem == AddLinks(m2, h2, p) && Free == [p] + F2 && freeList == p;
    }

    /**
     * `coalesce_left` on the free block `p`, block `i`, which is not the
     * first one and is not on the list: when its left neighbour is free,
     * that block absorbs it and is returned; otherwise nothing changes and
     * `p` is returned. The list is not touched. `coalesce` comes back set
     * when the merge happens and is passed through otherwise.
     */
    method CoalesceLeft(p: int, coalesce: bool, ghost i: int) returns (q: int, merged: bool)
      requires Fit(mem, Blocks, Free, freeList) && 0 < i < |Blocks| && p == Blocks[i]
      requires !View(mem, Blocks)[i].inUse && p !in Free
      modifies this
      ensures merged == (coalesce || !old(View(mem, Blocks))[i - 1].inUse)
      ensures Fit(mem, Blocks, Free, freeList) && initialized == old(initialized)
      ensures Free == old(Free) && freeList == old(freeList)
      ensures old(View(mem, Blocks))[i - 1].inUse ==> q == p && mem == old(mem) && Blocks == old(Blocks)
      ensures !old(View(mem, Blocks))[i - 1].inUse ==>
        && q == old(Blocks)[i - 1]
        && View(mem, Blocks) == Join(old(View(mem, Blocks)), i - 1)
        && Blocks == old(Blocks)[..i] + old(Blocks)[i + 1..]
        && (ListedBut(old(mem), old(Blocks), old(Free), p) ==> ListedBut(mem, Blocks, Free, q))
      ensures KeepsLive(old(mem), old(Blocks), mem, Blocks)
    {
      ghost var m0, bs := mem, Blocks;
      FreeAt(mem, Blocks, i);
      var prevSize := mem[p - 1];
      var previous := p - prevSize / WORD_SIZE;
      merged := coalesce;
      q := p;
      if prevSize % 2 == 0 {
        merged := true;
        ghost var j := i - 1;
        prevSize := prevSize + mem[p];
        JoinBounds(m0, bs, j, prevSize);
        mem := mem[previous := prevSize][previous + SizeOf(prevSize) / WORD_SIZE - 1 := prevSize];
        Blocks := Blocks[..j + 1] + Blocks[j + 2..];
        LeftMerge(m0, bs, Free, freeList, j, prevSize, mem);
        JoinKeepsLive(m0, bs, mem, Blocks, j);
        q := previous;
      }
    }
    /**
     * `mem_alloc`: the first call starts the heap; a request of zero bytes,
     * or one whose block size would exceed PTRDIFF_MAX, gets NULL. Otherwise
     * the best-fitting free block is taken, split when the rest holds a
     * minimum block; when no free block fits, the heap grows by a new block
     * at its top if the system grants the break (`brkOk`), and the request
     * gets NULL if not. A granted request gets the payload of a block in use
     * that holds at least `n` bytes.
     */
    method MemAlloc(n: int, brkOk: bool) returns (ptr: int)
      requires Consistent() && 0 <= n <= SIZE_MAX
      modifies this
      ensures Consistent() && initialized
      ensures old(Valid()) ==> Valid()
      ensures KeepsListed(old(mem), old(Blocks), old(Free), mem, Blocks, Free)
      ensures ptr == NULL || (Live(ptr) && SizeOf(mem[ptr - 1]) - 2 * WORD_SIZE >= n && !old(Live(ptr)))
      ensures KeepsLive(old(mem), old(Blocks), mem, Blocks)
      ensures ptr != NULL ==> Used(View(mem, Blocks)) == Used(old(View(mem, Blocks))) + 1
      ensures ptr == NULL ==>
        mem == old(mem) && Blocks == old(Blocks) && Free == old(Free) && freeList == old(freeList)
      ensures ptr == NULL <==>
        (n == 0 || AdjustSize(n).None? || (BestFitBlock(old(mem), old(Free), AdjustSize(n).value) == NULL && !brkOk))
      ensures ptr != NULL && BestFitBlock(old(mem), old(Free), AdjustSize(n).value) != NULL ==>
        && ptr - 1 == BestFitBlock(old(mem), old(Free), AdjustSize(n).value)
        && View(mem, Blocks) == Place(old(View(mem, Blocks)), IndexOf(old(Blocks), ptr - 1), AdjustSize(n).value)
      ensures ptr != NULL && BestFitBlock(old(mem), old(Free), AdjustSize(n).value) == NULL ==>
        && ptr - 1 == |old(mem)|
        && View(mem, Blocks) == Grow(old(View(mem, Blocks)), AdjustSize(n).value)
    {
      if !initialized {
        NoBlocks(mem, Blocks);
        NoEntries(mem, Free, freeList);
        InitHeap();
        initialized := true;
      }
      if n == 0 {
        return NULL;
      }
      var adjusted := AdjustSize(n);
      if adjusted.None? {
        return NULL;
      }
      ptr := Allocate(adjusted.value, brkOk);
    }

    /**
     * The body of `mem_alloc` for a request of `size` bytes, already
     * adjusted: the best fit from the list, or a new block at the top when
     * nothing fits and the break is granted, or NULL.
     */
    method Allocate(size: int, brkOk: bool) returns (ptr: int)
      requires Fit(mem, Blocks, Free, freeList) && size % 8 == 0 && size >= MIN_SIZE
      modifies this
      ensures Fit(mem, Blocks, Free, freeList) && initialized == old(initialized)
      ensures AllFreeListed(old(mem), old(Blocks), old(Free)) ==> AllFreeListed(mem, Blocks, Free)
      ensures KeepsListed(old(mem), old(Blocks), old(Free), mem, Blocks, Free)
      ensures ptr == NULL || (LiveIn(mem, Blocks, ptr) && SizeOf(mem[ptr - 1]) >= size && !LiveIn(old(mem), old(Blocks), ptr))
      ensures KeepsLive(old(mem), old(Blocks), mem, Blocks)
      ensures ptr != NULL ==> Used(View(mem, Blocks)) == Used(old(View(mem, Blocks))) + 1
      ensures ptr == NULL <==> BestFitBlock(old(mem), old(Free), size) == NULL && !brkOk
      ensures ptr == NULL ==>
        mem == old(mem) && Blocks == old(Blocks) && Free == old(Free) && freeList == old(freeList)
      ensures BestFitBlock(old(mem), old(Free), size) != NULL ==>
        && ptr - 1 == BestFitBlock(old(mem), old(Free), size)
        && View(mem, Blocks) == Place(old(View(mem, Blocks)), IndexOf(old(Blocks), ptr - 1), size)
      ensures BestFitBlock(old(mem), old(Free), size) == NULL && ptr != NULL ==>
        ptr - 1 == |old(mem)| && View(mem, Blocks) == Grow(old(View(mem, Blocks)), size)
    {
      var best := FindFreeBlock(size);
      if best == NULL {
        if !brkOk {
          KeepsListedSame(mem, Blocks, Free);
          return NULL;
        }
        ptr := GrowHeap(size);
      } else {
        BestFitFits(mem, Free, freeList, size, best);
        ptr := TakeBlock(best, size, IndexOf(Blocks, best));
      }
    }

    /**
     * The miss branch of `mem_alloc` when the system grants the break: the
     * old break becomes the header of a block of `size` bytes in use at the
     * top of the arena. The tagging the C code shares with the hit branch is
     * done here and in `TakeBlock`.
     */
    method GrowHeap(size: int) returns (ptr: int)
      requires Fit(mem, Blocks, Free, freeList) && size % 8 == 0 && size >= MIN_SIZE
      modifies this
      ensures Fit(mem, Blocks, Free, freeList) && initialized == old(initialized)
      ensures ptr == |old(mem)| + 1 && Blocks == old(Blocks) + [ptr - 1]
      ensures Free == old(Free) && freeList == old(freeList)
      ensures 0 < ptr < |mem| && IsAllocated(mem[ptr - 1]) && SizeOf(mem[ptr - 1]) == size
      ensures View(mem, Blocks) == Grow(old(View(mem, Blocks)), size)
      ensures KeepsLive(old(mem), old(Blocks), mem, Blocks)
      ensures Used(View(mem, Blocks)) == Used(old(View(mem, Blocks))) + 1
      ensures AllFreeListed(old(mem), old(Blocks), Free) ==> AllFreeListed(mem, Blocks, Free)
      ensures KeepsListed(old(mem), old(Blocks), Free, mem, Blocks, Free)
    {
      var b := |mem|;
      var tag := Tag(size, true);
      var grown := (mem + seq(size / WORD_SIZE, _ => 0))[b := tag][b + SizeOf(tag) / WORD_SIZE - 1 := tag];
      GrowSteps(mem, Blocks, Free, freeList, size, tag, grown);
      mem := grown;
      Blocks := Blocks + [b];
      ptr := b + 1;
    }

    /**
     * The hit branch of `mem_alloc`: the free block `b` (block `i`), of at
     * least `size` bytes, leaves the list; then either its rest becomes a
     * free block of its own or the request takes it whole.
     */
    method TakeBlock(b: int, size: int, ghost i: int) returns (ptr: int)
      requires Fit(mem, Blocks, Free, freeList) && 0 <= i < |Blocks| && b == Blocks[i] && b in Free
      requires size % 8 == 0 && size >= MIN_SIZE && 0 <= b < |mem| && mem[b] >= size
      modifies this
      ensures Fit(mem, Blocks, Free, freeList) && initialized == old(initialized)
      ensures ptr == b + 1 && i < |Blocks| && Blocks[i] == b
      ensures 0 <= b < |mem| && IsAllocated(mem[b]) && SizeOf(mem[b]) >= size
      ensures View(mem, Blocks) == Place(old(View(mem, Blocks)), i, size)
      ensures KeepsLive(old(mem), old(Blocks), mem, Blocks)
      ensures Used(View(mem, Blocks)) == Used(old(View(mem, Blocks))) + 1
      ensures AllFreeListed(old(mem), old(Blocks), old(Free)) ==> AllFreeListed(mem, Blocks, Free)
      ensures KeepsListed(old(mem), old(Blocks), old(Free), mem, Blocks, Free)
    {
      ghost var v0 := View(mem, Blocks);
      ghost var m0, bs0, F0 := mem, Blocks, Free;
      assert !v0[i].inUse;
      UnlistBlock(b, i);
      ghost var m1, F1 := mem, Free;
      ptr := PlaceRequest(b, size, i);
      PlaceFits(v0, i, size);
      UnlistKeepsListed(m0, bs0, F0, m1, F1, mem, Blocks, Free, b);
    }

    /** `free_list_remove` of the free block `b` (block `i`) at the start of the hit branch. */
    method UnlistBlock(b: int, ghost i: int)
      requires Fit(mem, Blocks, Free, freeList) && 0 <= i < |Blocks| && b == Blocks[i] && b in Free
      modifies this
      ensures Fit(mem, Blocks, Free, freeList) && initialized == old(initialized)
      ensures Blocks == old(Blocks) && b !in Free && View(mem, Blocks) == old(View(mem, Blocks))
      ensures 0 <= b < |mem| && mem[b] == old(mem)[b]
      ensures KeepsLive(old(mem), old(Blocks), mem, Blocks)
      ensures AllFreeListed(old(mem), old(Blocks), old(Free)) ==> ListedBut(mem, Blocks, Free, b)
      ensures forall y :: y in old(Free) && y != b ==> y in Free
    {
      ghost var m0, F0 := mem, Free;
      FreeHeader(mem, Blocks, i);
      Unlist(mem, Blocks, Free, freeList, i);
      FreeListRemove(b);
      WithoutMembers(F0, b);
      FreeHeader(mem, Blocks, i);
      SameViewKeepsLive(m0, Blocks, mem);
    }

    /**
     * The rest of the hit branch of `mem_alloc`, on the free block `b`
     * (block `i`), off the list, of at least `size` bytes: either its rest
     * becomes a free block of its own or the request takes it whole.
     */
    method PlaceRequest(b: int, size: int, ghost i: int) returns (ptr: int)
      requires Fit(mem, Blocks, Free, freeList) && 0 <= i < |Blocks| && b == Blocks[i] && b !in Free
      requires !View(mem, Blocks)[i].inUse
      requires size % 8 == 0 && size >= MIN_SIZE && 0 <= b < |mem| && mem[b] >= size
      modifies this
      ensures Fit(mem, Blocks, Free, freeList) && initialized == old(initialized)
      ensures ptr == b + 1 && i < |Blocks| && Blocks[i] == b
      ensures 0 <= b < |mem| && IsAllocated(mem[b]) && SizeOf(mem[b]) >= size
      ensures View(mem, Blocks) == Place(old(View(mem, Blocks)), i, size)
      ensures KeepsLive(old(mem), old(Blocks), mem, Blocks)
      ensures ListedBut(old(mem), old(Blocks), old(Free), b) ==> AllFreeListed(mem, Blocks, Free)
      ensures KeepsListed(old(mem), old(Blocks), old(Free), mem, Blocks, Free)
    {
      ghost var m0, bs := mem, Blocks;
      FreeHeader(mem, Blocks, i);
      var remain := mem[b] - size;
      if remain >= MIN_SIZE {
        SplitBlock(b, size, remain, i);
      } else {
        MarkBlock(b, size, i);
        PlaceKeepsLive(m0, bs, mem, i, size);
      }
      ptr := b + 1;
    }

    /**
     * A free block `b` (block `i`), off the list, whose rest after `size`
     * bytes holds a minimum block: the rest gets its own tags and enters the
     * list at the head, and the front is tagged in use with `size` bytes.
     */
    method SplitBlock(b: int, size: int, remain: int, ghost i: int)
      requires Fit(mem, Blocks, Free, freeList) && 0 <= i < |Blocks| && b == Blocks[i] && b !in Free
      requires !View(mem, Blocks)[i].inUse && 0 <= b < |mem|
      requires size % 8 == 0 && size >= MIN_SIZE && remain == mem[b] - size && remain >= MIN_SIZE
      modifies this
      ensures Fit(mem, Blocks, Free, freeList) && initialized == old(initialized)
      ensures i < |Blocks| && Blocks[i] == b && 0 <= b < |mem| && IsAllocated(mem[b]) && SizeOf(mem[b]) == size
      ensures View(mem, Blocks) == Place(old(View(mem, Blocks)), i, size)
      ensures KeepsLive(old(mem), old(Blocks), mem, Blocks)
      ensures ListedBut(old(mem), old(Blocks), old(Free), b) ==> AllFreeListed(mem, Blocks, Free)
      ensures KeepsListed(old(mem), old(Blocks), old(Free), mem, Blocks, Free)
    {
      ghost var m1, bs, F, head := mem, Blocks, Free, freeList;
      var r := b + size / WORD_SIZE;
      ghost var bs' := bs[..i + 1] + [r] + bs[i + 1..];
      ghost var m2, m := SplitPlan(m1, bs, F, head, i, size, b, r, remain, bs', Tag(size, true));
      SplitWrites(b, r, remain, Tag(size, true), m2, m);
      Blocks := bs';
      SplitKeepsLive(m1, bs, mem, Blocks, i, size, r);
      FreeHeader(m1, bs, i);
      SplitKeepsListed(m1, bs, mem, Blocks, F, i, size, r);
    }

    /**
     * The writes of the split, in the order `mem_alloc` does them: the
     * remainder's tags, `free_list_add(remain)`, then the front's tag `tag`.
     */
    method SplitWrites(b: int, r: int, remain: int, tag: int, ghost m1: seq<int>, ghost m: seq<int>)
      requires 0 <= r && r + 2 < |mem| && 0 <= r + remain / WORD_SIZE - 1 < |mem|
      requires m1 == mem[r := remain][r + remain / WORD_SIZE - 1 := remain]
      requires ListWF(m1, Free, freeList) && ApartAll(Free, r)
      requires 0 <= b < |mem| && 0 <= b + SizeOf(tag) / WORD_SIZE - 1 < |mem|
      requires m == AddLinks(m1, freeList, r)[b := tag][b + SizeOf(tag) / WORD_SIZE - 1 := tag]
      modifies this
      ensures mem == m && Free == [r] + old(Free) && freeList == r
      ensures Blocks == old(Blocks) && initialized == old(initialized)
    {
      mem := mem[r := remain][r + remain / WORD_SIZE - 1 := remain];
      FreeListAdd(r);
      mem := mem[b := tag][b + SizeOf(tag) / WORD_SIZE - 1 := tag];
    }

    /**
     * A free block `b` (block `i`), off the list, whose rest after `size`
     * bytes is too small for a block: the request takes all of it, and its
     * tags are marked in use.
     */
    method MarkBlock(b: int, size: int, ghost i: int)
      requires Fit(mem, Blocks, Free, freeList) && 0 <= i < |Blocks| && b == Blocks[i] && b !in Free
      requires !View(mem, Blocks)[i].inUse && 0 <= b < |mem|
      requires size % 8 == 0 && size >= MIN_SIZE && mem[b] >= size && mem[b] - size < MIN_SIZE
      modifies this
      ensures Fit(mem, Blocks, Free, freeList) && initialized == old(initialized)
      ensures Blocks == old(Blocks) && Free == old(Free) && freeList == old(freeList)
      ensures 0 <= b < |mem| && IsAllocated(mem[b]) && SizeOf(mem[b]) == old(mem[b])
      ensures View(mem, Blocks) == Place(old(View(mem, Blocks)), i, size)
      ensures ListedBut(old(mem), Blocks, Free, b) ==> AllFreeListed(mem, Blocks, Free)
      ensures KeepsListed(old(mem), Blocks, Free, mem, Blocks, Free)
    {
      ghost var m1 := mem;
      FreeHeader(mem, Blocks, i);
      BlockIn(mem, Blocks, i);
      var tag := Tag(mem[b], true);
      mem := mem[b := tag][b + SizeOf(tag) / WORD_SIZE - 1 := tag];
      MarkKept(m1, Blocks, Free, freeList, i, size, tag, mem);
      MarkKeepsListed(m1, Blocks, mem, Free, i, size);
    }

    /** `ptr` is the payload pointer of a block in use: what `mem_free` releases. */
    ghost predicate Live(ptr: int)
      reads this
    {
      LiveIn(mem, Blocks, ptr)
    }

    /**
     * `mem_free`: a pointer outside `(heap_start, heap_end)` and a block
     * that is already free are ignored. Otherwise the block's tags are
     * cleared and it is merged with its free neighbours; a block that did
     * not merge is listed, and the resulting block is handed back to the
     * system when it is the last one. The view changes as `Release` says.
     * The list stays complete except in the `Loses` case, where the joined
     * block is free but left off the list.
     */
    method MemFree(ptr: int)
      requires Consistent()
      requires 0 < ptr < |mem| ==> ptr - 1 in Blocks
      requires Live(ptr) ==> NeighboursListed(mem, Blocks, Free, IndexOf(Blocks, ptr - 1))
      modifies this
      ensures Consistent() && initialized == old(initialized)
      ensures !old(Live(ptr)) ==>
        mem == old(mem) && Blocks == old(Blocks) && Free == old(Free) && freeList == old(freeList)
      ensures old(Live(ptr)) ==>
        var i, v := IndexOf(old(Blocks), ptr - 1), old(View(mem, Blocks));
        && View(mem, Blocks) == Release(v, i)
        && (old(Valid()) && !Loses(v, i) ==> Valid())
        && (Loses(v, i) ==> i < |Blocks| && Blocks[i] == ptr - 1 && ptr - 1 !in Free)
        && (old(Valid()) && Loses(v, i) ==> ListedBut(mem, Blocks, Free, ptr - 1))
      ensures KeepsLiveBut(old(mem), old(Blocks), mem, Blocks, ptr)
      ensures old(Live(ptr)) ==> Used(View(mem, Blocks)) == Used(old(View(mem, Blocks))) - 1
    {
      if ptr <= 0 || ptr >= |mem| {
        return;
      }
      var p := ptr - 1;
      var size := mem[p];
      if size % 2 == 0 {
        return;
      }
      assert Live(ptr);
      ghost var i, v := IndexOf(Blocks, p), View(mem, Blocks);
      assert v[i] == Info(mem, p);
      FreeBlock(ptr, i, v);
      ReleaseTotal(v, i);
    }

    /**
     * The body of `mem_free` once `ptr` is known to address an allocated
     * block: clear its tags, merge it with its free neighbours, then list
     * the result or hand it back to the system.
     */
    method FreeBlock(ptr: int, ghost i: int, ghost v: seq<BlockInfo>)
      requires Consistent() && Live(ptr)
      requires i == IndexOf(Blocks, ptr - 1) && v == View(mem, Blocks)
      requires NeighboursListed(mem, Blocks, Free, i)
      modifies this
      ensures Consistent() && initialized == old(initialized)
      ensures View(mem, Blocks) == Release(v, i)
      ensures old(Valid()) && !Loses(v, i) ==> Valid()
      ensures Loses(v, i) ==> i < |Blocks| && Blocks[i] == ptr - 1 && ptr - 1 !in Free
      ensures old(Valid()) && Loses(v, i) ==> ListedBut(mem, Blocks, Free, ptr - 1)
      ensures KeepsLiveBut(old(mem), old(Blocks), mem, Blocks, ptr)
    {
      ghost var m0, bs0 := mem, Blocks;
      var p, coalesce, size;
      ghost var k, left;
      p, coalesce, size, k, left := FreeMerge(ptr, i, v);
      ghost var m2, bs2 := mem, Blocks;
      Settle(p, size, coalesce, k, left);
      KeepsButChain(m0, bs0, m2, bs2, mem, Blocks, ptr);
    }

    /**
     * The merging half of `FreeBlock`: clear the tags of block `i` and merge
     * it with its free neighbours into the block `q` of `qsize` bytes. In
     * the `Loses` case `q` is the freed block itself, merged to the right
     * and taken off the list; otherwise `q` is off the list only when
     * nothing merged or when it is the last block.
     */
    method FreeMerge(ptr: int, ghost i: int, ghost v: seq<BlockInfo>)
      returns (q: int, coalesce: bool, qsize: int, ghost k: int, ghost left: seq<BlockInfo>)
      requires Consistent() && Live(ptr)
      requires i == IndexOf(Blocks, ptr - 1) && v == View(mem, Blocks)
      requires NeighboursListed(mem, Blocks, Free, i)
      modifies this
      ensures Fit(mem, Blocks, Free, freeList) && initialized == old(initialized)
      ensures 0 <= k < |Blocks| && Blocks[k] == q && left == View(mem, Blocks)
      ensures !left[k].inUse && qsize == left[k].size
      ensures Release(v, i) == if k == |left| - 1 then left[..k] else left
      ensures !coalesce ==> q !in Free
      ensures coalesce ==> q in Free || StaleUnlinked(mem, Free, q)
      ensures Loses(v, i) ==> coalesce && k == i && q == ptr - 1 && q !in Free && k < |left| - 1
      ensures !Loses(v, i) && coalesce && q !in Free ==> k == |left| - 1
      ensures old(Valid()) ==> ListedBut(mem, Blocks, Free, q)
      ensures KeepsLiveBut(old(mem), old(Blocks), mem, Blocks, ptr)
    {
      var p := ptr - 1;
      ghost var valid := Valid();
      ghost var m0, bs0 := mem, Blocks;
      assert initialized;
      var size := ClearTags(p, i);
      ghost var m1 := mem;
      assert valid ==> ListedBut(mem, Blocks, Free, p);
      ghost var cleared := View(mem, Blocks);
      assert cleared == v[i := BlockInfo(v[i].size, false)];
      assert RunStart(cleared, i) == RunStart(v, i) && RunEnd(cleared, i) == RunEnd(v, i);
      q, coalesce, qsize, k := MergeNeighbours(p, size, i, cleared);
      left := View(mem, Blocks);
      KeepsButChain(m0, bs0, m1, bs0, mem, Blocks, ptr);
      ReleaseSteps(v, i, left, k);
      assert |left| == |Blocks|;
    }

    /**
     * `mem_free` with the block it loses put back on the list: when the
     * right merge took the block off the list and the left merge does not
     * happen, the merged block is listed again, as a block that did not
     * merge is. Everything else is as in `MemFree`, and now every free
     * block stays on the list.
     */
    method MemFreeListed(ptr: int)
      requires Valid()
      requires 0 < ptr < |mem| ==> ptr - 1 in Blocks
      modifies this
      ensures Valid() && initialized == old(initialized)
      ensures !old(Live(ptr)) ==>
        mem == old(mem) && Blocks == old(Blocks) && Free == old(Free) && freeList == old(freeList)
      ensures old(Live(ptr)) ==>
        View(mem, Blocks) == Release(old(View(mem, Blocks)), IndexOf(old(Blocks), ptr - 1))
      ensures KeepsLiveBut(old(mem), old(Blocks), mem, Blocks, ptr)
      ensures old(Live(ptr)) ==> Used(View(mem, Blocks)) == Used(old(View(mem, Blocks))) - 1
    {
      if ptr <= 0 || ptr >= |mem| {
        return;
      }
      var p := ptr - 1;
      var size := mem[p];
      if size % 2 == 0 {
        return;
      }
      assert Live(ptr);
      ghost var i, v := IndexOf(Blocks, p), View(mem, Blocks);
      assert v[i] == Info(mem, p);
      FreeBlockListed(ptr, i, v);
      ReleaseTotal(v, i);
    }

    /**
     * `FreeBlock` with the corrected listing: whether the left neighbour is
     * free is read from its footer before the merges, and a block the right
     * merge listed stays listed unless the left merge absorbs it.
     */
    method FreeBlockListed(ptr: int, ghost i: int, ghost v: seq<BlockInfo>)
      requires Valid() && Live(ptr)
      requires i == IndexOf(Blocks, ptr - 1) && v == View(mem, Blocks)
      modifies this
      ensures Valid() && initialized == old(initialized)
      ensures View(mem, Blocks) == Release(v, i)
      ensures KeepsLiveBut(old(mem), old(Blocks), mem, Blocks, ptr)
    {
      ghost var m0, bs0 := mem, Blocks;
      var q, qsize, listed;
      ghost var k, left;
      q, qsize, listed, k, left := ReleaseMerge(ptr, i, v);
      ghost var m2, bs2 := mem, Blocks;
      Settle(q, qsize, listed, k, left);
      KeepsButChain(m0, bs0, m2, bs2, mem, Blocks, ptr);
    }

    /**
     * The first half of the corrected release: clear the tags of block `i`
     * and merge it with its free neighbours. The merged block `q` of
     * `qsize` bytes is on the free list exactly when `listed`, and every
     * other free block is.
     */
    method ReleaseMerge(ptr: int, ghost i: int, ghost v: seq<BlockInfo>)
      returns (q: int, qsize: int, listed: bool, ghost k: int, ghost left: seq<BlockInfo>)
      requires Valid() && Live(ptr)
      requires i == IndexOf(Blocks, ptr - 1) && v == View(mem, Blocks)
      modifies this
      ensures Fit(mem, Blocks, Free, freeList) && initialized == old(initialized)
      ensures 0 <= k < |Blocks| && Blocks[k] == q && left == View(mem, Blocks)
      ensures !left[k].inUse && qsize == left[k].size
      ensures Release(v, i) == if k == |left| - 1 then left[..k] else left
      ensures (listed ==> q in Free) && (!listed ==> q !in Free)
      ensures ListedBut(mem, Blocks, Free, q)
      ensures KeepsLiveBut(old(mem), old(Blocks), mem, Blocks, ptr)
    {
      var p := ptr - 1;
      ghost var m0, bs0 := mem, Blocks;
      assert NeighboursListed(mem, Blocks, Free, i);
      var size := ClearTags(p, i);
      ghost var m1 := mem;
      FreeHeader(mem, Blocks, i);
      var leftFree := p > 0 && mem[p - 1] % 2 == 0;
      if p > 0 {
        LeftNeighbour(mem, Blocks, i);
      }
      assert leftFree <==> 0 < i && !v[i - 1].inUse;
      var coalesce;
      ghost var cleared := View(mem, Blocks);
      assert cleared == v[i := BlockInfo(v[i].size, false)];
      assert RunStart(cleared, i) == RunStart(v, i) && RunEnd(cleared, i) == RunEnd(v, i);
      q, coalesce, qsize, k := MergeNeighbours(p, size, i, cleared);
      left := View(mem, Blocks);
      KeepsButChain(m0, bs0, m1, bs0, mem, Blocks, ptr);
      ReleaseSteps(v, i, left, k);
      listed := coalesce && (p == 0 || leftFree);
    }

    /**
     * The tag clearing of `mem_free` on the allocated block `p` (block `i`):
     * header and footer get the plain size, which is returned. The block is
     * now free and off the list; nothing else changes.
     */
    method ClearTags(p: int, ghost i: int) returns (size: int)
      requires Fit(mem, Blocks, Free, freeList) && 0 <= i < |Blocks| && p == Blocks[i]
      requires 0 <= p < |mem| && IsAllocated(mem[p])
      requires NeighboursListed(mem, Blocks, Free, i)
      modifies this
      ensures Fit(mem, Blocks, Free, freeList) && initialized == old(initialized)
      ensures Blocks == old(Blocks) && Free == old(Free) && freeList == old(freeList) && |mem| == |old(mem)|
      ensures View(mem, Blocks) == old(View(mem, Blocks))[i := BlockInfo(old(View(mem, Blocks))[i].size, false)]
      ensures p !in Free && size == View(mem, Blocks)[i].size
      ensures NeighboursListed(mem, Blocks, Free, i)
      ensures AllFreeListed(old(mem), Blocks, Free) ==> ListedBut(mem, Blocks, Free, p)
      ensures KeepsLiveBut(old(mem), Blocks, mem, Blocks, p + 1)
    {
      ghost var m0 := mem;
      Neighbours(mem, Blocks, i);
      size := SizeOf(mem[p]);
      mem := mem[p := size][p + size / WORD_SIZE - 1 := size];
      ClearKept(m0, Blocks, Free, freeList, i, mem);
      ClearKeepsLive(m0, Blocks, mem, i);
    }

    /**
     * The merges of `mem_free` around the block `p` (block `i`) whose tags
     * it has just cleared, with its `size`: `coalesce_right` unless the
     * block is the last one, then, unless it is the first, the block is
     * taken off the list if the right merge listed it and `coalesce_left`
     * runs. The result is the block the run of free blocks now forms, its
     * size, and whether a merge happened. That block is off the list when
     * nothing merged; it is on the list after a left merge or a right merge
     * alone at the first block; after a right merge alone elsewhere it is
     * off the list with stale links.
     */
    method MergeNeighbours(p: int, size: int, ghost i: int, ghost v: seq<BlockInfo>)
      returns (q: int, coalesce: bool, qsize: int, ghost k: int)
      requires Fit(mem, Blocks, Free, freeList) && 0 <= i < |Blocks| && p == Blocks[i] && v == View(mem, Blocks)
      requires !View(mem, Blocks)[i].inUse && size == View(mem, Blocks)[i].size
      requires p !in Free && NeighboursListed(mem, Blocks, Free, i)
      modifies this
      ensures Fit(mem, Blocks, Free, freeList) && initialized == old(initialized)
      ensures && k == RunStart(v, i) && k < |Blocks| && Blocks[k] == q
        && View(mem, Blocks) == Coalesce(v, i) && qsize == View(mem, Blocks)[k].size
        && !View(mem, Blocks)[k].inUse && 0 <= q < |mem| && !IsAllocated(mem[q])
        && q + qsize / WORD_SIZE <= |mem| && (q + qsize / WORD_SIZE == |mem| <==> k == |Blocks| - 1)
        && coalesce == (RunStart(v, i) < i || i < RunEnd(v, i))
        && (!coalesce ==> q !in Free)
        && (0 < i && i < RunEnd(v, i) && v[i - 1].inUse ==> q == p && StaleUnlinked(mem, Free, q))
        && (coalesce && !(0 < i && i < RunEnd(v, i) && v[i - 1].inUse) ==> q in Free)
        && (coalesce ==> q in Free || StaleUnlinked(mem, Free, q))
      ensures ListedBut(old(mem), old(Blocks), old(Free), p) ==> ListedBut(mem, Blocks, Free, q)
      ensures KeepsLive(old(mem), old(Blocks), mem, Blocks)
    {
      ghost var m0, bs0 := mem, Blocks;
      coalesce, qsize := MergeRightNeighbour(p, size, i, v);
      ghost var m1, bs1 := mem, Blocks;
      q, coalesce, qsize, k := MergeLeftNeighbour(p, coalesce, qsize, i, v);
      KeepsChain(m0, bs0, m1, bs1, mem, Blocks);
    }

    /**
     * The second half of the merges of `mem_free`, on the block `p` (block
     * `i`) the right merge of the view `v` left: unless it is the first
     * block, `coalesce_left` runs. The result is as for `MergeNeighbours`.
     */
    method MergeLeftNeighbour(p: int, coalesce: bool, size: int, ghost i: int, ghost v: seq<BlockInfo>)
      returns (q: int, merged: bool, qsize: int, ghost k: int)
      requires Fit(mem, Blocks, Free, freeList) && 0 <= i < |v| && !v[i].inUse
      requires View(mem, Blocks) == MergeRight(v, i) && i < |Blocks| && p == Blocks[i]
      requires (p == 0 <==> i == 0) && size == View(mem, Blocks)[i].size
      requires coalesce == (i < RunEnd(v, i)) && (coalesce <==> p in Free)
      requires LeftListed(mem, Blocks, Free, i)
      modifies this
      ensures Fit(mem, Blocks, Free, freeList) && initialized == old(initialized)
      ensures && k == RunStart(v, i) && k < |Blocks| && Blocks[k] == q
        && View(mem, Blocks) == Coalesce(v, i) && qsize == View(mem, Blocks)[k].size
        && !View(mem, Blocks)[k].inUse && 0 <= q < |mem| && !IsAllocated(mem[q])
        && q + qsize / WORD_SIZE <= |mem| && (q + qsize / WORD_SIZE == |mem| <==> k == |Blocks| - 1)
        && merged == (RunStart(v, i) < i || i < RunEnd(v, i))
        && (!merged ==> q !in Free)
        && (0 < i && i < RunEnd(v, i) && v[i - 1].inUse ==> q == p && StaleUnlinked(mem, Free, q))
        && (merged && !(0 < i && i < RunEnd(v, i) && v[i - 1].inUse) ==> q in Free)
        && (merged ==> q in Free || StaleUnlinked(mem, Free, q))
      ensures (if coalesce then AllFreeListed(old(mem), old(Blocks), old(Free))
               else ListedBut(old(mem), old(Blocks), old(Free), p)) ==> ListedBut(mem, Blocks, Free, q)
      ensures KeepsLive(old(mem), old(Blocks), mem, Blocks)
    {
      q, merged, qsize, k := p, coalesce, size, i;
      if p > 0 {
        ghost var right := View(mem, Blocks);
        if !right[i - 1].inUse {
          k := i - 1;
        }
        q, merged := MergeLeft(p, coalesce, i, right);
        qsize := mem[q];
      }
      FreeHeader(mem, Blocks, k);
    }

    /**
     * The right merge of `mem_free` on the free block `p` (block `i`) of
     * the given `size`: `coalesce_right` runs unless the block is the last
     * one. The block absorbs a free right neighbour, is then listed, and
     * `coalesce` records the merge; its new size is returned.
     */
    method MergeRightNeighbour(p: int, size: int, ghost i: int, ghost v: seq<BlockInfo>) returns (coalesce: bool, rsize: int)
      requires Fit(mem, Blocks, Free, freeList) && 0 <= i < |Blocks| && p == Blocks[i] && v == View(mem, Blocks)
      requires !View(mem, Blocks)[i].inUse && size == View(mem, Blocks)[i].size
      requires p !in Free && NeighboursListed(mem, Blocks, Free, i)
      modifies this
      ensures Fit(mem, Blocks, Free, freeList) && initialized == old(initialized)
      ensures && View(mem, Blocks) == MergeRight(v, i) && i < |Blocks| && Blocks[i] == p
        && (p == 0 <==> i == 0) && rsize == View(mem, Blocks)[i].size
        && coalesce == (i < RunEnd(v, i)) && (coalesce <==> p in Free)
        && LeftListed(mem, Blocks, Free, i)
      ensures ListedBut(old(mem), old(Blocks), old(Free), p) ==>
        if coalesce then AllFreeListed(mem, Blocks, Free) else ListedBut(mem, Blocks, Free, p)
      ensures KeepsLive(old(mem), old(Blocks), mem, Blocks)
    {
      FreeHeader(mem, Blocks, i);
      coalesce, rsize := false, size;
      if p + size / WORD_SIZE < |mem| {
        var q;
        q, coalesce := CoalesceRight(p, coalesce, i);
        FreeHeader(mem, Blocks, i);
        rsize := mem[q];
      }
    }

    /**
     * The `ptr > heap_start` branch of `mem_free`, on the free block `p`
     * (block `i`): a block the right merge listed is taken off the list
     * again, then `coalesce_left` runs. After a left merge the left
     * neighbour, which is listed, is the result; otherwise `p` is, off the
     * list, with stale links when the right merge had listed it.
     */
    method MergeLeft(p: int, coalesce: bool, ghost i: int, ghost v: seq<BlockInfo>) returns (q: int, merged: bool)
      requires Fit(mem, Blocks, Free, freeList) && 0 < i < |Blocks| && p == Blocks[i] && v == View(mem, Blocks)
      requires !View(mem, Blocks)[i].inUse && (coalesce <==> p in Free)
      requires LeftListed(mem, Blocks, Free, i)
      modifies this
      ensures Fit(mem, Blocks, Free, freeList) && initialized == old(initialized)
      ensures && merged == (coalesce || !v[i - 1].inUse)
        && (v[i - 1].inUse ==> q == p && Blocks == old(Blocks) && View(mem, Blocks) == v)
        && (!v[i - 1].inUse ==> i - 1 < |Blocks| && Blocks[i - 1] == q && View(mem, Blocks) == Join(v, i - 1) && q in Free)
        && (coalesce && v[i - 1].inUse ==> StaleUnlinked(mem, Free, q))
        && (!coalesce && v[i - 1].inUse ==> q !in Free)
      ensures (if coalesce then AllFreeListed(old(mem), old(Blocks), old(Free))
               else ListedBut(old(mem), old(Blocks), old(Free), p)) ==> ListedBut(mem, Blocks, Free, q)
      ensures KeepsLive(old(mem), old(Blocks), mem, Blocks)
    {
      ghost var m0 := mem;
      if coalesce {
        Unlist(mem, Blocks, Free, freeList, i);
        FreeListRemove(p);
      }
      SameViewKeepsLive(m0, Blocks, mem);
      ghost var m1, bs := mem, Blocks;
      if !View(mem, Blocks)[i - 1].inUse {
        LeftFree(mem, Blocks, Free, i);
      }
      q, merged := CoalesceLeft(p, coalesce, i);
      KeepsChain(m0, bs, m1, bs, mem, Blocks);
    }

    /**
     * The end of `mem_free`, on the block `p` (block `k`) its merges left:
     * the block is listed when nothing merged, and when it is the last
     * block it is taken off the list and the break moves down to its
     * header. A block left off the list with stale links is kept off it.
     */
    method Settle(p: int, size: int, coalesce: bool, ghost k: int, ghost v: seq<BlockInfo>)
      requires Fit(mem, Blocks, Free, freeList) && 0 <= k < |Blocks| && Blocks[k] == p && v == View(mem, Blocks)
      requires !View(mem, Blocks)[k].inUse && size == View(mem, Blocks)[k].size
      requires !coalesce ==> p !in Free
      requires coalesce ==> p in Free || StaleUnlinked(mem, Free, p)
      modifies this
      ensures Fit(mem, Blocks, Free, freeList) && initialized == old(initialized)
      ensures View(mem, Blocks) == if k == |v| - 1 then v[..k] else v
      ensures coalesce && k < |old(Blocks)| - 1 ==>
        mem == old(mem) && Blocks == old(Blocks) && Free == old(Free) && freeList == old(freeList)
      ensures (ListedBut(old(mem), old(Blocks), old(Free), p)
               && (coalesce && p !in old(Free) ==> k == |old(Blocks)| - 1)) ==> AllFreeListed(mem, Blocks, Free)
      ensures KeepsLive(old(mem), old(Blocks), mem, Blocks)
    {
      ghost var m0, bs, F, head := mem, Blocks, Free, freeList;
      SettleList(mem, Blocks, Free, freeList, k, coalesce, size);
      if !coalesce {
        FreeListAdd(p);
      }
      assert Settled(m0, mem, Blocks, F, Free, freeList, k, coalesce, size);
      if p + size / WORD_SIZE == |mem| {
        ReleaseTop(p);
      } else if ListedBut(m0, bs, F, p) && (coalesce && p !in F ==> k == |bs| - 1) {
        ListedAll(mem, Blocks, Free, p);
      }
      SettleKeepsLive(m0, bs, mem, Blocks, k);
    }

    /**
     * The last step of `mem_free` when the block `p` it leaves is the last
     * one: the block is taken off the list (it may be off it already, with
     * stale links) and the break moves down to its header.
     */
    method ReleaseTop(p: int)
      requires Fit(mem, Blocks, Free, freeList) && |Blocks| > 0 && p == Blocks[|Blocks| - 1]
      requires p in Free || StaleUnlinked(mem, Free, p)
      modifies this
      ensures Fit(mem, Blocks, Free, freeList) && initialized == old(initialized)
      ensures Blocks == old(Blocks)[..|old(Blocks)| - 1]
      ensures View(mem, Blocks) == old(View(mem, Blocks))[..|Blocks|]
      ensures ListedBut(old(mem), old(Blocks), old(Free), p) ==> AllFreeListed(mem, Blocks, Free)
    {
      ghost var m1, bs, F1, h1 := mem, Blocks, Free, freeList;
      FreeListRemove(p);
      ghost var m2 := mem;
      mem := mem[..p];
      Blocks := Blocks[..|Blocks| - 1];
      TopRelease(m1, bs, F1, h1, p, m2, Free, freeList);
      assert mem == m2[..p];
      assert Blocks == bs[..|bs| - 1];
    }

    /**
     * `mem_resize`: a block for `size` bytes is taken with `mem_alloc`; when
     * that succeeds, the old payload's words are copied over (as far as both
     * payloads reach, see CopyPayload) and the old block is freed with
     * `mem_free` as written. A failed allocation leaves everything as it
     * was, the old block included. A NULL `ptr` makes the call a plain
     * `mem_alloc`. The free needs the free neighbours of the old block on
     * the list, as `MemFree` does; `mem_alloc` takes no free block off the
     * list, so a heap that meets this on entry meets it at the free. A
     * valid heap stays valid unless the free loses the merged block at
     * `ptr - 1`, which is then free but off the list.
     */
    method MemResize(ptr: int, size: int, brkOk: bool) returns (block: int)
      requires Consistent() && (ptr == NULL || Live(ptr)) && 0 <= size <= SIZE_MAX
      requires Live(ptr) ==> NeighboursListed(mem, Blocks, Free, IndexOf(Blocks, ptr - 1))
      modifies this
      ensures Consistent() && initialized
      ensures old(Valid()) && (ptr == NULL || block == NULL) ==> Valid()
      ensures old(Valid()) ==> ValidUnlessLost(ptr - 1)
      ensures block == NULL <==>
        (size == 0 || AdjustSize(size).None? || (BestFitBlock(old(mem), old(Free), AdjustSize(size).value) == NULL && !brkOk))
      ensures block == NULL ==>
        mem == old(mem) && Blocks == old(Blocks) && Free == old(Free) && freeList == old(freeList)
      ensures block != NULL ==>
        && block != ptr && !old(Live(block)) && Live(block)
        && SizeOf(mem[block - 1]) - 2 * WORD_SIZE >= size
        && KeepsLiveBut(old(mem), old(Blocks), mem, Blocks, ptr)
        && Used(View(mem, Blocks)) == Used(old(View(mem, Blocks))) + (if ptr == NULL then 1 else 0)
    {
      ghost var m0, bs0, F0 := mem, Blocks, Free;
      block := MemAlloc(size, brkOk);
      if block != NULL && ptr != NULL {
        ghost var m1, bs1 := mem, Blocks;
        assert Live(ptr);
        ghost var i, v := IndexOf(Blocks, ptr - 1), View(mem, Blocks);
        MoveAndFree(ptr, block, size, i, v, m0, bs0, F0);
        KeepsThenBut(m0, bs0, m1, bs1, mem, Blocks, ptr);
      }
    }

    /**
     * The tail of `mem_resize` once the new block `block` is granted: the
     * old payload's words are copied over, as far as both payloads reach,
     * and `ptr` is freed by `mem_free` as written; `block` stays in use
     * with its size. The free neighbours of `ptr` were listed in the heap
     * `(m0, bs0, F0)` before `mem_alloc`, which took no free block off the
     * list. A valid heap stays valid unless the free loses the merged
     * block, which is then free at `ptr - 1` and off the list.
     */
    method MoveAndFree(ptr: int, block: int, size: int, ghost i: int, ghost v: seq<BlockInfo>,
                       ghost m0: seq<int>, ghost bs0: seq<int>, ghost F0: seq<int>)
      requires Consistent() && Live(ptr) && Live(block) && ptr != block
      requires 0 <= size <= SizeOf(mem[block - 1]) - 2 * WORD_SIZE
      requires i == IndexOf(Blocks, ptr - 1) && v == View(mem, Blocks)
      requires Tiled(m0, bs0) && LiveIn(m0, bs0, ptr) && m0[ptr - 1] == mem[ptr - 1]
      requires NeighboursListed(m0, bs0, F0, IndexOf(bs0, ptr - 1)) && KeepsListed(m0, bs0, F0, mem, Blocks, Free)
      modifies this
      ensures Consistent() && initialized == old(initialized)
      ensures 0 <= i < |v| && View(mem, Blocks) == Release(v, i)
      ensures old(Valid()) && !Loses(v, i) ==> Valid()
      ensures old(Valid()) ==> ValidUnlessLost(ptr - 1)
      ensures Live(block) && mem[block - 1] == old(mem)[block - 1]
      ensures KeepsLiveBut(old(mem), old(Blocks), mem, Blocks, ptr)
      ensures Used(View(mem, Blocks)) == Used(old(View(mem, Blocks))) - 1
    {
      NeighboursKept(m0, bs0, F0, mem, Blocks, Free, ptr - 1);
      ghost var m1, bs1 := mem, Blocks;
      MovePayload(ptr, block, size);
      ghost var m2 := mem;
      SameViewNeighbours(m1, mem, Blocks, Free, i);
      MemFree(ptr);
      KeepsThenBut(m1, bs1, m2, bs1, mem, Blocks, ptr);
    }

    /**
     * The copy step of `mem_resize`: the old payload's words, as far as both
     * payloads reach, go to `block`, and the heap stays as it was.
     */
    method MovePayload(ptr: int, block: int, size: int)
      requires Consistent() && Live(ptr) && Live(block) && ptr != block
      requires 0 <= size <= SizeOf(mem[block - 1]) - 2 * WORD_SIZE
      modifies this
      ensures Consistent() && (old(Valid()) ==> Valid())
      ensures Live(ptr) && Live(block) && mem[block - 1] == old(mem)[block - 1]
      ensures |mem| == |old(mem)|
      ensures forall x :: 0 <= x < WordsFor(size) && WORD_SIZE * x < SizeOf(old(mem)[ptr - 1]) - 2 * WORD_SIZE ==>
        block + x < |mem| && ptr + x < |mem| && mem[block + x] == old(mem)[ptr + x]
      ensures Blocks == old(Blocks) && Free == old(Free) && freeList == old(freeList) && initialized == old(initialized)
      ensures View(mem, Blocks) == old(View(mem, Blocks))
      ensures KeepsLive(old(mem), Blocks, mem, Blocks)
    {
      PayloadEnds(ptr);
      PayloadEnds(block);
      var usable := SizeOf(mem[ptr - 1]) - 2 * WORD_SIZE;
      var words := ResizeCopy(usable, size);
      CopyPayload(block, ptr, words);
    }

    /**
     * The `memcpy` of `mem_resize`, at word granularity, with the length
     * bounded by both payloads: the first `words` words of the payload
     * `src` are copied to the payload `dst`. Only those words of `dst`
     * change, so the heap stays as it was.
     */
    method CopyPayload(dst: int, src: int, words: int)
      requires Fit(mem, Blocks, Free, freeList) && Live(dst) && Live(src) && dst != src
      requires 0 <= words && dst + words <= End(mem, dst - 1) - 1 && src + words <= End(mem, src - 1) - 1
      modifies this
      ensures Fit(mem, Blocks, Free, freeList) && View(mem, Blocks) == old(View(mem, Blocks))
      ensures Blocks == old(Blocks) && Free == old(Free) && freeList == old(freeList) && initialized == old(initialized)
      ensures |mem| == |old(mem)| && 0 < dst <= dst + words <= |mem| && 0 < src <= src + words <= |mem|
      ensures mem[dst..dst + words] == old(mem)[src..src + words]
      ensures forall x :: 0 <= x < |mem| && !(dst <= x < dst + words) ==> mem[x] == old(mem)[x]
      ensures KeepsLive(old(mem), Blocks, mem, Blocks)
      ensures AllFreeListed(old(mem), Blocks, Free) ==> AllFreeListed(mem, Blocks, Free)
    {
      LiveApart(mem, Blocks, dst, src);
      PayloadEnds(dst);
      PayloadEnds(src);
      var m := CopyWords(mem, dst, src, words);
      PayloadKept(mem, Blocks, Free, freeList, dst, dst, dst + words, m);
      mem := m;
    }

    /**
     * `mem_alloc_clear` as written: the request is `n * size` in wrapping
     * 64-bit arithmetic, handed to `mem_alloc`; a granted payload is zeroed
     * over the words covering the requested bytes.
     */
    method MemAllocClear(n: int, size: int, brkOk: bool) returns (block: int)
      requires Consistent() && 0 <= n <= SIZE_MAX && 0 <= size <= SIZE_MAX
      modifies this
      ensures Consistent() && initialized
      ensures old(Valid()) ==> Valid()
      ensures block == NULL <==>
        (var bytes := ClearBytesAsWritten(n, size);
         bytes == 0 || AdjustSize(bytes).None? || (BestFitBlock(old(mem), old(Free), AdjustSize(bytes).value) == NULL && !brkOk))
      ensures block == NULL ==>
        mem == old(mem) && Blocks == old(Blocks) && Free == old(Free) && freeList == old(freeList)
      ensures block != NULL ==>
        && Live(block) && !old(Live(block))
        && SizeOf(mem[block - 1]) - 2 * WORD_SIZE >= ClearBytesAsWritten(n, size)
        && (forall x :: block <= x < block + WordsFor(ClearBytesAsWritten(n, size)) ==> mem[x] == 0)
        && KeepsLive(old(mem), old(Blocks), mem, Blocks)
        && Used(View(mem, Blocks)) == Used(old(View(mem, Blocks))) + 1
    {
      var bytes := (n * size) % SIZE_MOD;
      block := MemAlloc(bytes, brkOk);
      if block != NULL {
        ZeroAfterAlloc(block, bytes);
      }
    }

    /**
     * `mem_alloc_clear` with the overflow check the interface intends: a
     * product `n * size` past SIZE_MAX gets NULL and changes nothing;
     * otherwise a granted payload holds all `n * size` bytes, zeroed.
     */
    method MemAllocClearChecked(n: int, size: int, brkOk: bool) returns (block: int)
      requires Consistent() && 0 <= n <= SIZE_MAX && 0 <= size <= SIZE_MAX
      modifies this
      ensures Consistent() && initialized == (old(initialized) || ClearBytes(n, size).Some?)
      ensures old(Valid()) ==> Valid()
      ensures block == NULL <==>
        (ClearBytes(n, size).None? || n * size == 0 || AdjustSize(n * size).None?
         || (BestFitBlock(old(mem), old(Free), AdjustSize(n * size).value) == NULL && !brkOk))
      ensures block == NULL ==>
        mem == old(mem) && Blocks == old(Blocks) && Free == old(Free) && freeList == old(freeList)
      ensures block != NULL ==>
        && Live(block) && !old(Live(block))
        && SizeOf(mem[block - 1]) - 2 * WORD_SIZE >= n * size
        && (forall x :: block <= x < block + WordsFor(n * size) ==> mem[x] == 0)
        && KeepsLive(old(mem), old(Blocks), mem, Blocks)
    {
      var bytes := ClearBytes(n, size);
      if bytes.None? {
        return NULL;
      }
      block := MemAlloc(bytes.value, brkOk);
      if block != NULL {
        ZeroAfterAlloc(block, bytes.value);
      }
    }

    /** The zeroing step of both versions of `mem_alloc_clear`, on a payload just handed out. */
    method ZeroAfterAlloc(block: int, bytes: int)
      requires Consistent() && Live(block) && 0 <= bytes <= SizeOf(mem[block - 1]) - 2 * WORD_SIZE
      modifies this
      ensures Consistent() && Live(block) && initialized == old(initialized)
      ensures (old(Valid()) ==> Valid()) && mem[block - 1] == old(mem)[block - 1]
      ensures forall x :: block <= x < block + WordsFor(bytes) ==> mem[x] == 0
      ensures KeepsLive(old(mem), old(Blocks), mem, Blocks) && View(mem, Blocks) == old(View(mem, Blocks))
    {
      PayloadEnds(block);
      ZeroPayload(block, WordsFor(bytes));
    }

    /**
     * The `memset` of `mem_alloc_clear`, at word granularity: the first
     * `words` words of the payload `ptr` become zero and nothing else
     * changes, so the heap stays as it was.
     */
    method ZeroPayload(ptr: int, words: int)
      requires Fit(mem, Blocks, Free, freeList) && Live(ptr)
      requires 0 <= words && ptr + words <= End(mem, ptr - 1) - 1
      modifies this
      ensures Fit(mem, Blocks, Free, freeList) && View(mem, Blocks) == old(View(mem, Blocks))
      ensures Blocks == old(Blocks) && Free == old(Free) && freeList == old(freeList) && initialized == old(initialized)
      ensures |mem| == |old(mem)| && forall x :: ptr <= x < ptr + words ==> mem[x] == 0
      ensures forall x :: 0 <= x < |mem| && !(ptr <= x < ptr + words) ==> mem[x] == old(mem)[x]
      ensures KeepsLive(old(mem), Blocks, mem, Blocks)
      ensures AllFreeListed(old(mem), Blocks, Free) ==> AllFreeListed(mem, Blocks, Free)
    {
      PayloadEnds(ptr);
      var m := ZeroWords(mem, ptr, words);
      PayloadKept(mem, Blocks, Free, freeList, ptr, ptr, ptr + words, m);
      mem := m;
    }

    /** The payload `ptr` in use ends one word before its block: its usable bytes fill whole words. */
    lemma PayloadEnds(ptr: int)
      requires Tiled(mem, Blocks) && Live(ptr)
      ensures End(mem, ptr - 1) <= |mem|
      ensures End(mem, ptr - 1) - 1 - ptr == (SizeOf(mem[ptr - 1]) - 2 * WORD_SIZE) / WORD_SIZE
      ensures (SizeOf(mem[ptr - 1]) - 2 * WORD_SIZE) % WORD_SIZE == 0 && SizeOf(mem[ptr - 1]) >= MIN_SIZE
    {
      var j := LiveEntry(mem, Blocks, ptr);
      BlockIn(mem, Blocks, j);
      BlockFacts(mem, ptr - 1);
    }
  }

  /**
   * The words the `memcpy` of `mem_resize` reads as written: all `size`
   * bytes of the new request, whatever the old payload holds.
   */
  /** What the words written by `mem_alloc`'s growth keep: see `GrowHeap`. */
  lemma GrowSteps(m0: seq<int>, bs: seq<int>, F: seq<int>, head: int, size: int, t: int, m: seq<int>)
    requires Fit(m0, bs, F, head) && size % 8 == 0 && size >= MIN_SIZE && t == Tag(size, true)
    requires m == (m0 + seq(size / WORD_SIZE, _ => 0))[|m0| := t][|m0| + SizeOf(t) / WORD_SIZE - 1 := t]
    ensures Fit(m, bs + [|m0|], F, head) && View(m, bs + [|m0|]) == Grow(View(m0, bs), size)
    ensures AllFreeListed(m0, bs, F) ==> AllFreeListed(m, bs + [|m0|], F)
    ensures KeepsLive(m0, bs, m, bs + [|m0|]) && KeepsListed(m0, bs, F, m, bs + [|m0|], F)
    ensures Used(View(m, bs + [|m0|])) == Used(View(m0, bs)) + 1
  {
    GrowKept(m0, bs, F, head, size, t, m);
    GrowKeepsLive(m0, bs, m, bs + [|m0|], size);
    GrowFits(View(m0, bs), size);
    GrowKeepsListed(m0, bs, m, bs + [|m0|], F, size);
  }

  function ResizeCopyAsWritten(size: nat): (w: nat)
    ensures size <= WORD_SIZE * w < size + WORD_SIZE
  {
    WordsFor(size)
  }

  /**
   * Growing a 16-byte payload to 100 bytes in a heap of that one block:
   * `mem_alloc(100)` grows the heap by a 120-byte block at word 4 and
   * hands out word 5. The copy as written then reads 13 words from word 1
   * on: past the old block's end at word 4, over the new block's header,
   * and into the words `[5, 18)` it writes, so source and destination
   * overlap.
   */
  lemma ResizeCopyOverreads(grown: seq<int>)
    requires grown == [33, 0, 0, 33, 121] + seq(13, _ => 0) + [121]
    ensures Tiled(grown, [0, 4]) && LiveIn(grown, [0, 4], 1) && LiveIn(grown, [0, 4], 5)
    ensures View(grown, [0, 4]) == Grow(View([33, 0, 0, 33], [0]), 120) && AdjustSize(100) == Some(120)
    ensures SizeOf(grown[0]) - 2 * WORD_SIZE == 16 && End(grown, 0) == 4
    ensures ResizeCopyAsWritten(100) == 13 && 1 + 13 > End(grown, 0) && 5 < 1 + 13 && 5 + 13 <= End(grown, 4) - 1
  {
    assert BlockAt(grown, 0) && BlockAt(grown, 4);
    assert Follows(grown, [0, 4], 0);
    assert View([33, 0, 0, 33], [0]) == [BlockInfo(32, true)];
    assert View(grown, [0, 4]) == [BlockInfo(32, true), BlockInfo(120, true)];
  }

  /**
   * The words the corrected `mem_resize` copies from a payload of `usable`
   * bytes into one of at least `size`: as many as both hold, which is the
   * whole old payload or the whole request.
   */
  function ResizeCopy(usable: nat, size: nat): (w: nat)
    requires usable % WORD_SIZE == 0
    ensures WORD_SIZE * w <= usable && w <= ResizeCopyAsWritten(size)
    ensures w == ResizeCopyAsWritten(size) || WORD_SIZE * w == usable
  {
    WordsFor(if usable < size then usable else size)
  }

  /**
   * `memcpy` at word granularity: the `words` words at `src` are copied to
   * `dst`, the two ranges being apart; no other word changes.
   */
  method CopyWords(m: seq<int>, dst: int, src: int, words: int) returns (r: seq<int>)
    requires 0 <= words && 0 <= dst && dst + words <= |m| && 0 <= src && src + words <= |m|
    requires dst + words <= src || src + words <= dst
    ensures |r| == |m| && r[dst..dst + words] == m[src..src + words]
    ensures forall x :: 0 <= x < |r| && !(dst <= x < dst + words) ==> r[x] == m[x]
  {
    r := m;
    var k := 0;
    while k < words
      invariant 0 <= k <= words && |r| == |m|
      invariant r[dst..dst + k] == m[src..src + k]
      invariant forall x :: 0 <= x < |r| && !(dst <= x < dst + k) ==> r[x] == m[x]
    {
      ghost var before := r;
      r := r[dst + k := r[src + k]];
      assert r[dst..dst + k + 1] == before[dst..dst + k] + [m[src + k]];
      assert m[src..src + k + 1] == m[src..src + k] + [m[src + k]];
      k := k + 1;
    }
  }

  /** `memset(.., 0, ..)` at word granularity: the `words` words at `p` become zero; no other word changes. */
  method ZeroWords(m: seq<int>, p: int, words: int) returns (r: seq<int>)
    requires 0 <= words && 0 <= p && p + words <= |m|
    ensures |r| == |m| && forall x :: p <= x < p + words ==> r[x] == 0
    ensures forall x :: 0 <= x < |r| && !(p <= x < p + words) ==> r[x] == m[x]
  {
    r := m;
    var k := 0;
    while k < words
      invariant 0 <= k <= words && |r| == |m|
      invariant forall x :: p <= x < p + k ==> r[x] == 0
      invariant forall x :: 0 <= x < |r| && !(p <= x < p + k) ==> r[x] == m[x]
    {
      r := r[p + k := 0];
      k := k + 1;
    }
  }

  /** The block `find_free_block` settles on over the whole list (BestFitBlockSpec says what it is). */
  function BestFitBlock(mem: seq<int>, F: seq<int>, size: int): (best: int)
    requires forall i :: 0 <= i < |F| ==> 0 <= F[i] < |mem|
    ensures best == NULL || best in F
  {
    var b := BestFit(mem, F, size, |F|);
    if b == -1 then NULL else F[b]
  }

  /**
   * The best fit is NULL when no entry reaches `size`; otherwise it is an
   * entry that does and that is no larger than any other entry that does.
   */
  lemma BestFitBlockSpec(mem: seq<int>, F: seq<int>, size: int)
    requires forall i :: 0 <= i < |F| ==> 0 <= F[i] < |mem|
    ensures var best := BestFitBlock(mem, F, size);
      && (best == NULL <==> forall x :: x in F ==> mem[x] < size)
      && (best != NULL ==> best in F && mem[best] >= size)
      && (best != NULL ==> forall x :: x in F && mem[x] >= size ==> mem[best] <= mem[x])
  {
    BestFitMeaning(mem, F, size, BestFit(mem, F, size, |F|));
  }

  lemma BestFitMeaning(mem: seq<int>, F: seq<int>, size: int, b: int)
    requires forall i :: 0 <= i < |F| ==> 0 <= F[i] < |mem|
    requires b == BestFit(mem, F, size, |F|)
    ensures b == -1 <==> forall x :: x in F ==> mem[x] < size
    ensures b != -1 ==> forall x :: x in F && mem[x] >= size ==> mem[F[b]] <= mem[x]
  {
    BestFitSpec(mem, F, size, |F|);
    forall x | x in F
      ensures b == -1 ==> mem[x] < size
      ensures b != -1 && mem[x] >= size ==> mem[F[b]] <= mem[x]
    {
      var i :| 0 <= i < |F| && F[i] == x;
    }
  }

  /** The bounds a list walk needs: the head and its `previous` lie inside the arena. */
  /** The best fit is a listed block of the arena whose size reaches the request. */
  lemma BestFitFits(mem: seq<int>, F: seq<int>, head: int, size: int, best: int)
    requires ListWF(mem, F, head) && best == BestFitBlock(mem, F, size) && best != NULL
    ensures best in F && 0 <= best < |mem| && mem[best] >= size
  {
    var k := BestFit(mem, F, size, |F|);
    assert best == F[k];
  }

  lemma HeadBounds(mem: seq<int>, F: seq<int>, head: int)
    requires ListWF(mem, F, head)
    ensures head != NULL ==> 0 <= head && head + 2 < |mem| && 0 <= mem[head + 2] && mem[head + 2] + 2 < |mem|
  {
  }

  /** Every entry lies inside the arena; the list is empty exactly when the head is NULL. */
  lemma EntriesInRange(mem: seq<int>, F: seq<int>, head: int)
    requires ListWF(mem, F, head)
    ensures forall i :: 0 <= i < |F| ==> 0 <= F[i] < |mem|
    ensures head == NULL <==> F == []
  {
  }

  /** One step of a walk: the `next` word of the `k`-th entry holds the following entry, the head after the tail. */
  lemma Successor(mem: seq<int>, F: seq<int>, head: int, k: int)
    requires ListWF(mem, F, head) && 0 <= k < |F|
    ensures 0 <= F[k] && F[k] + 1 < |mem|
    ensures k + 1 < |F| ==> mem[F[k] + 1] == F[k + 1] && F[k + 1] != head
    ensures k + 1 == |F| ==> mem[F[k] + 1] == head
  {
    if k + 1 < |F| {
      assert LinkedAt(mem, F, k);
      SpacedDistinct(F, k + 1, 0);
    }
  }

  /** What `free_list_remove` leaves, for an entry and for a stale block. */
  lemma RemoveEffect(mem: seq<int>, F: seq<int>, head: int, p: int, mem': seq<int>, head': int)
    requires ListWF(mem, F, head)
    requires p in F || StaleUnlinked(mem, F, p)
    requires 0 <= p && p + 2 < |mem|
    requires mem[p + 1] != p ==>
      0 <= mem[p + 1] && mem[p + 1] + 2 < |mem| && 0 <= mem[p + 2] && mem[p + 2] + 2 < |mem|
    requires mem' == RemoveLinks(mem, p) && head' == RemoveHead(mem, head, p)
    ensures p in F ==> ListWF(mem', Without(F, p), head') && StaleUnlinked(mem', Without(F, p), p)
    ensures p !in F ==> mem' == mem && head' == head && ListWF(mem', F, head')
  {
    if p in F {
      RemoveLinksWF(mem, F, head, p);
      RemoveLeavesStale(mem, F, head, p);
    } else {
      RemoveStale(mem, F, head, p);
    }
  }
}
