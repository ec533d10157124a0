/**
 * Two places where mem.c as written does not do what its surrounding code
 * evidently intends. Each is modelled here as written, with the input that
 * shows the discrepancy; the rest of the model uses the corrected
 * behaviour (Allocator.Heap.Alloc and Allocator.Heap.Realloc for the first,
 * Allocator.Heap.MoveBoundary for the second).
 */
module Findings {
  import opened Block
  import opened Layout
  import opened FreeList
  import opened Fit
  import opened Plans

  // ---------------------------------------------------------------------
  // 1. The guard word is added to the request in size_t arithmetic.
  // ---------------------------------------------------------------------

  /**
   * The request mem_alloc and mem_realloc work with, as written: the size
   * asked for plus SECRET_SIZE, modulo 2^64. It is the true sum exactly when
   * the sum fits, and otherwise less than one guard word.
   */
  function WrappedNeed(n: nat): (r: nat)
    requires n < WORD
    ensures r < WORD
    ensures r == n + GUARD_SIZE <==> n + GUARD_SIZE < WORD
    ensures WORD <= n + GUARD_SIZE ==> r < GUARD_SIZE && r < n
  {
    (n + GUARD_SIZE) % WORD
  }

  /** The largest requests wrap: SIZE_MAX - 7 bytes become a request for none. */
  lemma LargestRequestWraps()
    ensures WrappedNeed(SIZE_MAX - 7) == 0
    ensures WrappedNeed(SIZE_MAX) == GUARD_SIZE - 1
  {
  }

  /**
   * mem_alloc as written, with the default first-fit strategy, for a request
   * of n >= SIZE_MAX - 7 bytes: the first free block is chosen as soon as
   * it holds the wrapped request of fewer than 8 bytes (any block does for
   * n = SIZE_MAX - 7), and it holds fewer than n + 8 bytes, so the pointer
   * returned cannot hold the n bytes asked for.
   */
  lemma AllocOverflowGrantsTooLittle(sizes: seq<nat>, n: nat, r: Option<nat>)
    requires WORD - GUARD_SIZE <= n < WORD
    requires 0 < |sizes| && WrappedNeed(n) <= sizes[0]
    requires forall i :: 0 <= i < |sizes| ==> sizes[i] < SIZE_MAX
    requires IsFirstFit(sizes, WrappedNeed(n), r)
    ensures r == Some(0)
    ensures sizes[0] < n + GUARD_SIZE
  {
  }

  /**
   * When the block chosen for a wrapped request w is split (more than
   * SPLIT_LIMIT bytes would be left), step 3 records w < 8 as its size, too
   * small to hold even the trailing guard word.
   */
  lemma WrappedSplitRecords(h: Headers, total: nat, k: nat, n: nat)
    requires Ordered(h.free, h.size) && Tiles(h.size, total)
    requires WORD - GUARD_SIZE <= n < WORD
    requires k < |h.free| && WrappedNeed(n) <= h.size[h.free[k]]
    requires h.size[h.free[k]] - WrappedNeed(n) > SPLIT_LIMIT
    ensures h.free[k] in Allocated(h, k, WrappedNeed(n)).size
    ensures Allocated(h, k, WrappedNeed(n)).size[h.free[k]] == WrappedNeed(n) < GUARD_SIZE
  {
    AllocatedBlock(h, total, k, WrappedNeed(n));
  }

  /**
   * The header guard of a block recording w bytes once step 4 of mem_alloc
   * has stored the trailing guard g at offset ALLOC_HDR + w - 8 of the
   * block; the header's guard word, at offset 8, held g already.
   */
  function HeaderGuardAfter(g: nat, w: nat): (r: nat)
    ensures forall i: nat :: i < 8 && w <= i ==> ByteOf(r, i) == ByteOf(g, i - w)
    ensures forall i: nat :: i < w || 8 <= i ==> ByteOf(r, i) == ByteOf(g, i)
  {
    Overlaid(g, ALLOC_HDR - GUARD_SIZE, ALLOC_HDR + w - GUARD_SIZE, g, 8)
  }

  /**
   * What a recorded size w < 8 does: the trailing guard lands on the header
   * guard. For w = 0 it rewrites the header guard with itself, both guard
   * checks pass, and mem_get_size reports SIZE_MAX - 7 bytes. For 0 < w the
   * header guard keeps only its first w bytes of g; as soon as byte w of g
   * differs from byte 0 it no longer equals g, and the first assert of a
   * later mem_free fails.
   */
  lemma WrappedGuardOverlapsHeader(g: nat, w: nat)
    requires w < GUARD_SIZE
    ensures ALLOC_HDR + w - GUARD_SIZE < ALLOC_HDR
    ensures w == 0 ==> HeaderGuardAfter(g, w) == g && SizeSub(w, GUARD_SIZE) == SIZE_MAX - 7
    ensures 0 < w && ByteOf(g, w) != ByteOf(g, 0) ==> HeaderGuardAfter(g, w) != g
  {
    if w == 0 {
      SameBytes(HeaderGuardAfter(g, w), g);
    } else if ByteOf(g, w) != ByteOf(g, 0) {
      assert ByteOf(HeaderGuardAfter(g, w), w) == ByteOf(g, 0);
    }
  }

  /**
   * mem_realloc as written, for a block of have bytes and a request of
   * n >= SIZE_MAX - 7 bytes: the wrapped request is smaller than the block,
   * so the call takes one of the shrinking paths and returns the block in
   * place, holding fewer than n + 8 bytes.
   */
  lemma ReallocOverflowShrinks(have: nat, n: nat, right: Option<nat>)
    requires WORD - GUARD_SIZE <= n < WORD && GUARD_SIZE <= have < WORD
    ensures WrappedNeed(n) < have
    ensures PlanOf(have, WrappedNeed(n), right) in {Keep, GiveTail, Carve}
    ensures SizeAfter(have, WrappedNeed(n), right) < n + GUARD_SIZE
  {
  }

  // ---------------------------------------------------------------------
  // 2. Case 3.1 of mem_realloc writes the new free header before it
  //    unlinks the free block on the right.
  // ---------------------------------------------------------------------

  /** Every byte of the word 0 is 0. */
  lemma {:induction false} ZeroBytes(m: nat)
    ensures ByteOf(0, m) == 0
    decreases m
  {
    if m > 0 {
      ZeroBytes(m - 1);
    }
  }

  /** A word is determined by its bytes. */
  lemma {:induction false} SameBytes(x: nat, y: nat)
    requires forall i: nat :: ByteOf(x, i) == ByteOf(y, i)
    ensures x == y
    decreases x + y
  {
    assert ByteOf(x, 0) == ByteOf(y, 0);
    if x != 0 || y != 0 {
      forall i: nat
        ensures ByteOf(x / 256, i) == ByteOf(y / 256, i)
      {
        assert ByteOf(x, i + 1) == ByteOf(y, i + 1);
      }
      SameBytes(x / 256, y / 256);
    }
  }

  /**
   * The word at offset a once the little-endian 8-byte word w has been
   * stored at offset s, when prev was there before; only the first j bytes
   * of the word at a are looked at for overlap.
   */
  function Overlaid(prev: nat, a: nat, s: nat, w: nat, j: nat): (r: nat)
    requires j <= 8
    ensures forall i :: 0 <= i < j && s <= a + i < s + 8 ==> ByteOf(r, i) == ByteOf(w, a + i - s)
    ensures forall i :: j <= i || a + i < s || s + 8 <= a + i ==> ByteOf(r, i) == ByteOf(prev, i)
    decreases j
  {
    if j == 0 then prev
    else
      var r0 := Overlaid(prev, a, s, w, j - 1);
      if s <= a + j - 1 < s + 8 then SetByte(r0, j - 1, ByteOf(w, a + j - 1 - s)) else r0
  }

  /**
   * The pointer remove_block links in place of the right block in case 3.1,
   * as written. Offsets count from the new free block's header, which is
   * d = have - need bytes before the right block's header: the new header's
   * size word sz and its NULL next are stored first, and only then is the
   * right block's next field, at offset d + 8, read; next is what it held.
   */
  function NextAfterShift(next: nat, d: nat, sz: nat): (r: nat)
  {
    var afterSize := Overlaid(next, d + FREE_HDR - GUARD_SIZE, 0, sz, 8);
    Overlaid(afterSize, d + FREE_HDR - GUARD_SIZE, GUARD_SIZE, NULL, 8)
  }

  /**
   * In case 3.1 the low 8 - d bytes of the right block's next field are
   * overwritten with zeros by the new header's NULL; the other bytes stay.
   */
  lemma NextAfterShiftBytes(next: nat, d: nat, sz: nat)
    requires 0 < d
    ensures forall i: nat :: i < 8 - d ==> ByteOf(NextAfterShift(next, d, sz), i) == 0
    ensures forall i: nat :: 8 - d <= i ==> ByteOf(NextAfterShift(next, d, sz), i) == ByteOf(next, i)
  {
    forall i: nat | i < 8 - d
      ensures ByteOf(NextAfterShift(next, d, sz), i) == 0
    {
      ZeroBytes(d + i);
    }
  }

  /**
   * Case 3.1 links in the right block's true successor exactly when the
   * shrink frees at least a guard word, or the bytes the new header
   * overwrites were zero already.
   */
  lemma ShiftKeepsNextIff(next: nat, d: nat, sz: nat)
    requires 0 < d
    ensures NextAfterShift(next, d, sz) == next <==>
              forall i: nat :: i < 8 - d ==> ByteOf(next, i) == 0
  {
    NextAfterShiftBytes(next, d, sz);
    if forall i: nat :: i < 8 - d ==> ByteOf(next, i) == 0 {
      SameBytes(NextAfterShift(next, d, sz), next);
    } else {
      var i: nat :| i < 8 - d && ByteOf(next, i) != 0;
      assert ByteOf(NextAfterShift(next, d, sz), i) != ByteOf(next, i);
    }
  }

  /**
   * The counterexample: a block of 17 bytes (9 asked for) shrunk to 16 bytes
   * (8 asked for) gives d = 1 to a free right neighbour whose successor is
   * at 0x5555_5555_9010. remove_block then links in NULL, and every free
   * block after the right neighbour drops out of the free list.
   */
  lemma ShiftLosesSuccessor(sz: nat)
    ensures NextAfterShift(0x5555_5555_9010, 1, sz) == NULL
    ensures 0x5555_5555_9010 != NULL
  {
    var next := 0x5555_5555_9010;
    NextAfterShiftBytes(next, 1, sz);
    forall i: nat
      ensures ByteOf(NextAfterShift(next, 1, sz), i) == ByteOf(0, i)
    {
      ZeroBytes(i);
      if 7 <= i {
        HighBytes(i);
      }
    }
    SameBytes(NextAfterShift(next, 1, sz), 0);
  }

  /** The address 0x5555_5555_9010 has six significant bytes. */
  lemma HighBytes(i: nat)
    requires 6 <= i
    ensures ByteOf(0x5555_5555_9010, i) == 0
  {
    var w := 0x5555_5555_9010;
    assert w / 0x100 == 0x55_5555_5590;
    assert ByteOf(w, i) == ByteOf(0x55_5555_5590, i - 1);
    assert ByteOf(0x55_5555_5590, i - 1) == ByteOf(0x5555_5555, i - 2);
    assert ByteOf(0x5555_5555, i - 2) == ByteOf(0x55_5555, i - 3);
    assert ByteOf(0x55_5555, i - 3) == ByteOf(0x5555, i - 4);
    assert ByteOf(0x5555, i - 4) == ByteOf(0x55, i - 5);
    assert ByteOf(0x55, i - 5) == ByteOf(0, i - 6);
    ZeroBytes(i - 6);
  }
}
