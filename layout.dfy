/**
 * Block layout of the allocator: the word size, the minimum block and payload
 * sizes, the request-size arithmetic of `adjust_size`, and the boundary-tag
 * word that packs a block's byte size with its allocation bit.
 *
 * Sizes are counted in BYTES, as the C code stores them in the header and
 * footer words; the arena itself is indexed by 8-byte words.
 */
module Layout {

  datatype Option<T> = None | Some(value: T)

  const WORD_SIZE: nat := 8
  /** Smallest block: header, `next`, `previous`, footer. */
  const MIN_SIZE: nat := 4 * WORD_SIZE
  /** Smallest payload: room for the two free-list links. */
  const MIN_PAYLOAD: nat := 2 * WORD_SIZE

  /** `size_t` is 64 bits wide; every C computation on sizes wraps modulo this. */
  const SIZE_MOD: nat := 0x1_0000_0000_0000_0000
  const SIZE_MAX: nat := SIZE_MOD - 1
  const PTRDIFF_MAX: nat := 0x7FFF_FFFF_FFFF_FFFF

  /** Largest request whose adjusted block size still fits in PTRDIFF_MAX. */
  const MAX_REQUEST: nat := PTRDIFF_MAX - 23

  function Max(a: int, b: int): int { if a < b then b else a }

  /** `(x + 7) & ~7` on unbounded integers: round up to a multiple of 8. */
  function RoundUp8(x: nat): (r: nat)
    ensures r % 8 == 0 && x <= r < x + 8
  {
    (x + 7) - (x + 7) % 8
  }

  /**
   * `adjust_size` exactly as the C code computes it, in 64-bit `size_t`
   * arithmetic: both the `+ 7` and the `+ 2 * WORD_SIZE` wrap around.
   */
  function AdjustSizeAsWritten(n: nat): (r: nat)
    requires n <= SIZE_MAX
    ensures r < SIZE_MOD && r % 8 == 0
  {
    var payload := if n < MIN_PAYLOAD then MIN_PAYLOAD else n;
    var bumped := (payload + 7) % SIZE_MOD;
    var rounded := bumped - bumped % 8;
    (2 * WORD_SIZE + rounded) % SIZE_MOD
  }

  /** The largest request wraps to a 16-byte block: smaller than MIN_SIZE and than the request. */
  lemma AdjustSizeAsWrittenWraps()
    ensures AdjustSizeAsWritten(SIZE_MAX) == 2 * WORD_SIZE
    ensures AdjustSizeAsWritten(SIZE_MAX) < MIN_SIZE
    ensures AdjustSizeAsWritten(SIZE_MAX) - 2 * WORD_SIZE < SIZE_MAX
  {
    var bumped := (SIZE_MAX + 7) % SIZE_MOD;
    assert bumped == 6;
    assert bumped - bumped % 8 == 0;
  }

  /**
   * Above MAX_REQUEST the code as written does not wrap at first: up to
   * `SIZE_MAX - 23` the block size is the request rounded up plus the two
   * tags, which exceeds PTRDIFF_MAX, so `sbrk` is asked for more than a
   * signed increment holds. Only the 23 largest requests wrap, to a block
   * of 0, 8 or 16 bytes.
   */
  lemma AdjustSizeAsWrittenLarge(n: nat)
    requires MAX_REQUEST < n <= SIZE_MAX
    ensures n <= SIZE_MAX - 23 ==> AdjustSizeAsWritten(n) == RoundUp8(n) + 2 * WORD_SIZE
    ensures n <= SIZE_MAX - 23 ==> PTRDIFF_MAX < AdjustSizeAsWritten(n)
    ensures SIZE_MAX - 23 < n ==> AdjustSizeAsWritten(n) < MIN_SIZE
  {
    var bumped := (n + 7) % SIZE_MOD;
    if n <= SIZE_MAX - 23 {
      assert bumped == n + 7;
      assert RoundUp8(n) % 8 == 0 && RoundUp8(n) >= n;
      assert RoundUp8(n) >= PTRDIFF_MAX - 15;
    } else if n <= SIZE_MAX - 7 {
      assert bumped == n + 7;
    } else {
      assert bumped == n + 7 - SIZE_MOD;
    }
  }

  /**
   * `adjust_size` with the overflow guard the allocator intends: a request
   * whose block size would not fit in PTRDIFF_MAX is refused (None), every
   * other request gets the smallest 8-byte-aligned block that holds the
   * payload (raised to MIN_PAYLOAD) plus a header and a footer.
   */
  function AdjustSize(n: nat): (r: Option<nat>)
    ensures r.None? <==> n > MAX_REQUEST
    ensures r.Some? ==> r.value % 8 == 0 && r.value >= MIN_SIZE && r.value <= PTRDIFF_MAX
    ensures r.Some? ==> r.value - 2 * WORD_SIZE >= Max(n, MIN_PAYLOAD)
    ensures r.Some? ==> r.value - 2 * WORD_SIZE < Max(n, MIN_PAYLOAD) + 8
  {
    var payload := if n < MIN_PAYLOAD then MIN_PAYLOAD else n;
    var size := 2 * WORD_SIZE + RoundUp8(payload);
    if size > PTRDIFF_MAX then None else Some(size)
  }

  /** Wherever the guarded size is defined, the C arithmetic computes the same value. */
  lemma AdjustSizeAgrees(n: nat)
    requires n <= MAX_REQUEST
    ensures AdjustSize(n) == Some(AdjustSizeAsWritten(n))
  {
    var payload := if n < MIN_PAYLOAD then MIN_PAYLOAD else n;
    assert payload + 7 < SIZE_MOD;
    assert (payload + 7) % SIZE_MOD == payload + 7;
    assert 2 * WORD_SIZE + RoundUp8(payload) < SIZE_MOD;
  }

  /** `n * size` as `mem_alloc_clear` computes it: a 64-bit product, wrapping without a check. */
  function ClearBytesAsWritten(n: nat, size: nat): (r: nat)
    requires n <= SIZE_MAX && size <= SIZE_MAX
    ensures r < SIZE_MOD
    ensures n * size <= SIZE_MAX ==> r == n * size
  {
    (n * size) % SIZE_MOD
  }

  /** A product past SIZE_MAX wraps to a request far smaller than the array asked for. */
  lemma ClearBytesAsWrittenWraps()
    ensures ClearBytesAsWritten(0x1_0000_0001, 0x1_0000_0000) == 0x1_0000_0000
    ensures ClearBytesAsWritten(0x1_0000_0001, 0x1_0000_0000) < 0x1_0000_0001 * 0x1_0000_0000
  {
    assert 0x1_0000_0001 * 0x1_0000_0000 == SIZE_MOD + 0x1_0000_0000;
  }

  /**
   * `n * size` with the overflow check a zeroing allocator needs: None when
   * the product does not fit in `size_t`, the exact product otherwise.
   */
  function ClearBytes(n: nat, size: nat): (r: Option<nat>)
    ensures r.None? <==> n * size > SIZE_MAX
    ensures r.Some? ==> r.value == n * size
  {
    if n * size > SIZE_MAX then None else Some(n * size)
  }

  /** Number of arena words a fill or copy of `bytes` bytes touches. */
  function WordsFor(bytes: nat): (w: nat)
    ensures bytes <= WORD_SIZE * w < bytes + WORD_SIZE
  {
    (bytes + WORD_SIZE - 1) / WORD_SIZE
  }

  /** `size & ~1`: the byte size stored in a boundary tag. */
  function SizeOf(w: int): int { w - w % 2 }

  /** `size & 1`: the allocation bit of a boundary tag. */
  predicate IsAllocated(w: int) { w % 2 == 1 }

  /** Number of arena words a block with boundary tag `w` spans. */
  function Words(w: int): int { SizeOf(w) / WORD_SIZE }

  /** Encodes a byte size and an allocation status into one boundary-tag word (`size | 1`). */
  function Tag(size: nat, inUse: bool): (w: nat)
    requires size % 8 == 0
    ensures SizeOf(w) == size && IsAllocated(w) == inUse
    ensures w % 8 == 0 || w % 8 == 1
  {
    MultipleOf8Mod(size / 8);
    if inUse then size + 1 else size
  }

  lemma MultipleOf8Mod(q: nat)
    ensures (8 * q) % 8 == 0 && (8 * q + 1) % 8 == 1
    ensures (8 * q) % 2 == 0 && (8 * q + 1) % 2 == 1
    ensures (8 * q) / 8 == q && SizeOf(8 * q) == 8 * q
  {
    assert (8 * q) / 8 == q;
    assert (8 * q + 1) / 8 == q;
    assert (8 * q) / 2 == 4 * q;
    assert (8 * q + 1) / 2 == 4 * q;
  }
}
