/**
 * The allocator engine: one region of `total` bytes at address `base`,
 * carved into blocks that tile it. The free blocks form the address-ordered
 * free list; every allocated block carries its guard (the header address
 * XOR the secret) twice, in its header and in the 8-byte word that ends it.
 */
module Allocator {
  import opened Block
  import opened Layout
  import opened FreeList
  import opened Fit
  import opened Plans

  /**
   * What an allocated block holds besides its size word: the guard word in
   * its header, the bytes the client may use, and the guard word that ends
   * the block (each word as its 8 bytes in memory order).
   */
  datatype Used = Used(guard: nat, data: seq<byte>, trailer: nat)

  /**
   * A block just handed out with sz bytes, guard word included: both guard
   * words are g. Its client bytes are whatever memory held, so only their
   * number is fixed.
   */
  predicate Granted(u: Used, sz: nat, g: nat)
  {
    u.guard == g && u.trailer == g && |u.data| + GUARD_SIZE == sz
  }

  /**
   * r is the block u resized in place to sz bytes: the header guard stays,
   * the client's bytes are kept as far as they fit, and the trailing guard g
   * is written at the new end. Bytes the block gains are whatever memory
   * held, so only their number is fixed.
   */
  predicate Refits(u: Used, r: Used, sz: nat, g: nat)
  {
    && r.guard == u.guard && r.trailer == g && |r.data| + GUARD_SIZE == sz
    && var m := if |r.data| < |u.data| then |r.data| else |u.data|;
       r.data[..m] == u.data[..m]
  }

  /** One block that Refits allows; the model fills the bytes gained with zeros. */
  function Refit(u: Used, sz: nat, g: nat): (r: Used)
    requires GUARD_SIZE <= sz
    ensures Refits(u, r, sz, g)
  {
    Used(u.guard, Resized(u.data, sz - GUARD_SIZE), g)
  }

  /**
   * An allocated block after the byte v is stored at offset i of its client
   * bytes: offsets past the client's bytes fall into the trailing guard
   * word, byte i - |data| of it.
   */
  function Stored(u: Used, i: nat, v: byte): (r: Used)
    ensures r.guard == u.guard && |r.data| == |u.data|
    ensures i < |u.data| ==> r.data[i] == v && r.trailer == u.trailer
    ensures i < |u.data| ==> forall m :: 0 <= m < |u.data| && m != i ==> r.data[m] == u.data[m]
    ensures |u.data| <= i ==> r.data == u.data && ByteOf(r.trailer, i - |u.data|) == v as nat
    ensures |u.data| <= i ==> forall m :: m != i - |u.data| ==> ByteOf(r.trailer, m) == ByteOf(u.trailer, m)
  {
    if i < |u.data| then u.(data := u.data[i := v])
    else u.(trailer := SetByte(u.trailer, i - |u.data|, v as nat))
  }

  /**
   * A store into the client bytes of a block whose guards are both g leaves
   * them both g; a store past the client bytes leaves them both g exactly
   * when it writes the byte of g already there.
   */
  lemma StoreBreaksGuard(u: Used, i: nat, v: byte, g: nat)
    requires u.guard == g && u.trailer == g
    ensures var r := Stored(u, i, v);
            r.guard == g && r.trailer == g <==> i < |u.data| || v as nat == ByteOf(g, i - |u.data|)
  {
    if |u.data| <= i {
      SetByteSame(g, i - |u.data|, v as nat);
    }
  }

  /**
   * The heap's bookkeeping agrees with itself: the free list is ordered and
   * never holds two touching blocks, the blocks tile the region, the
   * allocated blocks are exactly the blocks that are not free, and each
   * allocated block's size is its client bytes plus the trailing guard word.
   */
  ghost predicate Consistent(total: nat, h: Headers, used: map<nat, Used>)
  {
    && Ordered(h.free, h.size) && Tiles(h.size, total)
    && (forall o :: o in used <==> o in h.size && o !in h.free)
    && (forall o :: o in used ==>
          o in h.size && |used[o].data| + GUARD_SIZE == h.size[o])
  }

  /** A store into an allocated block's bytes keeps the bookkeeping consistent. */
  lemma StoreConsistent(total: nat, h: Headers, used: map<nat, Used>, o: nat, u: Used)
    requires Consistent(total, h, used) && o in used && |u.data| == |used[o].data|
    ensures Consistent(total, h, used[o := u])
  {
  }

  /**
   * An operation that leaves b allocated with new contents and reshapes only
   * free blocks around it keeps the bookkeeping consistent.
   */
  lemma ReshapeConsistent(total: nat, h: Headers, r: Headers, used: map<nat, Used>, b: nat, u: Used)
    requires Consistent(total, h, used)
    requires Ordered(r.free, r.size) && Tiles(r.size, total) && Reshaped(h, r, b)
    requires |u.data| + GUARD_SIZE == r.size[b]
    ensures Consistent(total, r, used[b := u])
  {
    var used' := used[b := u];
    forall o
      ensures o in used' <==> o in r.size && o !in r.free
    {
      if o != b && o in r.size && o !in r.free {
        assert o in h.size && o !in h.free;
      }
    }
    forall o | o in used'
      ensures o in r.size && |used'[o].data| + GUARD_SIZE == r.size[o]
    {
      if o != b {
        assert o in used;
      }
    }
  }

  /**
   * Taking need bytes from the free block at index k and recording the block
   * as allocated, with both guards g and client bytes not yet written, keeps
   * the bookkeeping consistent.
   */
  lemma GrantConsistent(total: nat, h: Headers, used: map<nat, Used>, k: nat, need: nat, g: nat, b: nat, r: Headers)
    requires Consistent(total, h, used)
    requires k < |h.free| && need <= h.size[h.free[k]] && GUARD_SIZE <= need
    requires b == h.free[k] && r == Allocated(h, k, need)
    ensures b in r.size && need <= r.size[b] && b + ALLOC_HDR + r.size[b] <= total
    ensures Consistent(total, r, used[b := Used(g, Unset(r.size[b] - GUARD_SIZE), g)])
  {
    AllocatedBlock(h, total, k, need);
    AllocKeepsOrder(h, total, k, need);
    Successor(r.size, total, b);
    AllocReshapes(h, total, k, need);
    ReshapeConsistent(total, h, r, used, b, Used(g, Unset(r.size[b] - GUARD_SIZE), g));
  }

  /**
   * Moving the boundary between the allocated block o and the free block at
   * index k right after it, so that o holds a bytes and its trailing guard
   * is rewritten, keeps the bookkeeping consistent.
   */
  lemma ShiftConsistent(total: nat, h: Headers, used: map<nat, Used>, k: nat, o: nat, a: nat, g: nat)
    requires Consistent(total, h, used) && o in used
    requires k < |h.free| && End(o, h.size) == h.free[k] && GUARD_SIZE <= a <= h.size[o] + h.size[h.free[k]]
    ensures Consistent(total, Shifted(h, k, o, a), used[o := Refit(used[o], a, g)])
  {
    ShiftKeepsOrder(h, total, k, o, a);
    ReshapeConsistent(total, h, Shifted(h, k, o, a), used, o, Refit(used[o], a, g));
  }

  /**
   * Carving the tail of the allocated block o off as a free block linked in
   * at slot k, so that o holds a bytes and its trailing guard is rewritten,
   * keeps the bookkeeping consistent.
   */
  lemma CarveConsistent(total: nat, h: Headers, used: map<nat, Used>, k: nat, o: nat, a: nat, g: nat)
    requires Consistent(total, h, used) && o in used && GUARD_SIZE <= a && a + FREE_HDR <= h.size[o]
    requires IsSlot(h.free, End(o, h.size), k) && !(k < |h.free| && h.free[k] == End(o, h.size))
    ensures k <= |h.free|
    ensures Consistent(total, CarvedOff(h, k, o, a), used[o := Refit(used[o], a, g)])
  {
    CarveSlot(h, total, k, o);
    CarveKeepsOrder(h, total, k, o, a);
    ReshapeConsistent(total, h, CarvedOff(h, k, o, a), used, o, Refit(used[o], a, g));
  }

  /**
   * The allocated block o absorbing the free block at index k right after
   * it, with its trailing guard rewritten at the new end, keeps the
   * bookkeeping consistent.
   */
  lemma AbsorbConsistent(total: nat, h: Headers, used: map<nat, Used>, k: nat, o: nat, g: nat)
    requires Consistent(total, h, used) && o in used
    requires k < |h.free| && End(o, h.size) == h.free[k]
    ensures var r := Absorbed(h, k, o);
            o in r.size && Consistent(total, r, used[o := Refit(used[o], r.size[o], g)])
  {
    AbsorbKeepsOrder(h, total, k, o);
    var r := Absorbed(h, k, o);
    ReshapeConsistent(total, h, r, used, o, Refit(used[o], r.size[o], g));
  }

  /** Freeing the allocated block b (insert_block at its slot) keeps the bookkeeping consistent. */
  lemma FreeConsistent(total: nat, h: Headers, used: map<nat, Used>, b: nat)
    requires Consistent(total, h, used) && b in used
    ensures Consistent(total, Insert(h, b, Slot(h.free, b)), used - {b})
  {
    InsertKeepsOrder(h, total, b);
    InsertMembers(h, b);
  }

  /**
   * Once an allocated block of at least GUARD_SIZE bytes is freed, some free
   * block can hold GUARD_SIZE bytes, and no free block is as large as
   * SIZE_MAX: so mem_alloc(0) right after mem_free cannot fail.
   */
  lemma RoomAfterFree(h: Headers, total: nat, b: nat)
    requires Ordered(h.free, h.size) && Tiles(h.size, total) && b in h.size && b !in h.free
    requires GUARD_SIZE <= h.size[b] && total <= WORD
    ensures Roomy(SizesOf(Insert(h, b, Slot(h.free, b))))
  {
    var k := Slot(h.free, b);
    assert IsSlot(h.free, b, k);
    InsertKeepsOrder(h, total, b);
    InsertRoom(h, b, k);
    RoomIn(Insert(h, b, k), total, h.size[b]);
  }

  /** Some free block can hold GUARD_SIZE bytes, and none is as large as SIZE_MAX. */
  predicate Roomy(s: seq<nat>)
  {
    && (exists i :: 0 <= i < |s| && GUARD_SIZE <= s[i])
    && (forall i :: 0 <= i < |s| ==> s[i] < SIZE_MAX)
  }

  /** Free lists whose sizes hold one of at least x bytes, and fit in a region of at most WORD bytes. */
  lemma RoomIn(r: Headers, total: nat, x: nat)
    requires Ordered(r.free, r.size) && Tiles(r.size, total) && total <= WORD && GUARD_SIZE <= x
    requires exists i :: 0 <= i < |r.free| && r.free[i] in r.size && x <= r.size[r.free[i]]
    ensures Roomy(SizesOf(r))
  {
    SizesBelowTotal(r, total);
    var j :| 0 <= j < |r.free| && r.free[j] in r.size && x <= r.size[r.free[j]];
    assert GUARD_SIZE <= SizesOf(r)[j];
  }

  /** The line mem_show prints for the block whose header is at offset o. */
  function Line(base: nat, h: Headers, o: nat): Span
    requires o in h.size
  {
    Span(base + o + ALLOC_HDR, SizeSub(h.size[o], GUARD_SIZE), o in h.free)
  }

  /** The lines for the blocks from offset o to the end of the region, in address order. */
  ghost function Walk(base: nat, total: nat, h: Headers, o: nat): seq<Span>
    requires Tiles(h.size, total) && (o in h.size || o == total)
    decreases total - o
  {
    if o !in h.size then []
    else
      Successor(h.size, total, o);
      [Line(base, h, o)] + Walk(base, total, h, End(o, h.size))
  }

  /** The walk from a block: its line, then the walk from the block after it. */
  lemma WalkCons(base: nat, total: nat, h: Headers, o: nat)
    requires Tiles(h.size, total) && o in h.size
    ensures End(o, h.size) in h.size || End(o, h.size) == total
    ensures Walk(base, total, h, o) == [Line(base, h, o)] + Walk(base, total, h, End(o, h.size))
  {
    Successor(h.size, total, o);
  }

  /** The walk from o lists every block at or after o. */
  lemma {:induction false} WalkCovers(base: nat, total: nat, h: Headers, o: nat)
    requires Tiles(h.size, total) && (o in h.size || o == total)
    decreases total - o
    ensures var s := Walk(base, total, h, o);
            forall x :: x in h.size && o <= x ==> exists i :: 0 <= i < |s| && s[i] == Line(base, h, x)
  {
    var s := Walk(base, total, h, o);
    if o in h.size {
      WalkCons(base, total, h, o);
      var e := End(o, h.size);
      WalkCovers(base, total, h, e);
      var t := Walk(base, total, h, e);
      forall x | x in h.size && o <= x
        ensures exists i :: 0 <= i < |s| && s[i] == Line(base, h, x)
      {
        if x == o {
          assert s[0] == Line(base, h, x);
        } else {
          assert e <= x;
          var i :| 0 <= i < |t| && t[i] == Line(base, h, x);
          assert s[i + 1] == Line(base, h, x);
        }
      }
    } else {
      forall x | x in h.size && o <= x
        ensures false
      {
        Successor(h.size, total, x);
      }
    }
  }

  /** Every line of the walk from o is the line of a block at or after o. */
  lemma {:induction false} WalkInside(base: nat, total: nat, h: Headers, o: nat)
    requires Tiles(h.size, total) && (o in h.size || o == total)
    decreases total - o
    ensures var s := Walk(base, total, h, o);
            forall i :: 0 <= i < |s| ==> exists x :: x in h.size && o <= x && s[i] == Line(base, h, x)
  {
    var s := Walk(base, total, h, o);
    if o in h.size {
      WalkCons(base, total, h, o);
      var e := End(o, h.size);
      WalkInside(base, total, h, e);
      var t := Walk(base, total, h, e);
      forall i | 0 <= i < |s|
        ensures exists x :: x in h.size && o <= x && s[i] == Line(base, h, x)
      {
        if i == 0 {
          assert s[0] == Line(base, h, o);
        } else {
          assert s[i] == t[i - 1];
          var x :| x in h.size && e <= x && t[i - 1] == Line(base, h, x);
          assert o <= x;
        }
      }
    }
  }

  /** The walk from o lists the blocks in strictly ascending address order, hence each once. */
  lemma {:induction false} WalkAscending(base: nat, total: nat, h: Headers, o: nat)
    requires Tiles(h.size, total) && (o in h.size || o == total)
    decreases total - o
    ensures var s := Walk(base, total, h, o);
            forall i, j :: 0 <= i < j < |s| ==> s[i].addr < s[j].addr
  {
    var s := Walk(base, total, h, o);
    if o in h.size {
      WalkCons(base, total, h, o);
      var e := End(o, h.size);
      WalkAscending(base, total, h, e);
      WalkInside(base, total, h, e);
      var t := Walk(base, total, h, e);
      forall i, j | 0 <= i < j < |s|
        ensures s[i].addr < s[j].addr
      {
        assert s[j] == t[j - 1];
        if i == 0 {
          var x :| x in h.size && e <= x && t[j - 1] == Line(base, h, x);
        } else {
          assert s[i] == t[i - 1];
        }
      }
    }
  }

  /**
   * Where mem_show's walks over allocated blocks start (a0) and stop (the
   * free block stop, or the end of the region): the first one at offset 0,
   * the one after the j-th free block where that block ends.
   */
  ghost predicate RunBounds(h: Headers, total: nat, a0: nat, stop: Option<nat>)
  {
    && (a0 in h.size || a0 == total)
    && (stop.Some? ==> a0 <= stop.value && stop.value in h.size)
    && (forall i :: 0 <= i < |h.free| ==> h.free[i] < a0 || (stop.Some? && stop.value <= h.free[i]))
  }

  lemma RunBeforeFree(h: Headers, total: nat, stop: Option<nat>)
    requires Ordered(h.free, h.size) && Tiles(h.size, total)
    requires stop == if |h.free| == 0 then None else Some(h.free[0])
    ensures RunBounds(h, total, 0, stop)
  {
  }

  lemma RunAfterFree(h: Headers, total: nat, j: nat, stop: Option<nat>)
    requires Ordered(h.free, h.size) && Tiles(h.size, total) && j < |h.free|
    requires stop == if j + 1 < |h.free| then Some(h.free[j + 1]) else None
    ensures RunBounds(h, total, End(h.free[j], h.size), stop)
  {
    Successor(h.size, total, h.free[j]);
    forall i | 0 <= i < |h.free|
      ensures h.free[i] < End(h.free[j], h.size) || (j + 1 < |h.free| && h.free[j + 1] <= h.free[i])
    {
      if i < j {
        assert h.free[i] < h.free[j];
      } else if j + 1 < i {
        assert h.free[j + 1] < h.free[i];
      }
    }
  }

  /** One step of a walk: the walk from a0 is run, then a's line, then the walk from the block after a. */
  lemma WalkStep(base: nat, total: nat, h: Headers, a0: nat, run: seq<Span>, a: nat)
    requires Tiles(h.size, total) && a in h.size && (a0 in h.size || a0 == total)
    requires Walk(base, total, h, a0) == run + Walk(base, total, h, a)
    ensures End(a, h.size) in h.size || End(a, h.size) == total
    ensures Walk(base, total, h, a0) == run + [Line(base, h, a)] + Walk(base, total, h, End(a, h.size))
  {
    WalkCons(base, total, h, a);
    Regroup(run, Line(base, h, a), [], Walk(base, total, h, End(a, h.size)));
  }

  /**
   * One step of mem_show's outer walk: the lines so far, the free block at
   * index j, then the run of allocated blocks after it.
   */
  lemma FreeStep(base: nat, total: nat, h: Headers, j: nat, spans: seq<Span>, line: Span, run: seq<Span>, a: nat)
    requires Tiles(h.size, total) && Listed(h.free, h.size) && j < |h.free| && (a in h.size || a == total)
    requires line == Span(base + h.free[j] + FREE_HDR, SizeSub(h.size[h.free[j]], GUARD_SIZE), true)
    requires spans + Walk(base, total, h, h.free[j]) == Walk(base, total, h, 0)
    requires End(h.free[j], h.size) in h.size || End(h.free[j], h.size) == total
    requires Walk(base, total, h, End(h.free[j], h.size)) == run + Walk(base, total, h, a)
    ensures spans + [line] + run + Walk(base, total, h, a) == Walk(base, total, h, 0)
  {
    var f := h.free[j];
    WalkCons(base, total, h, f);
    assert Line(base, h, f) == line;
    Regroup(spans, line, run, Walk(base, total, h, a));
  }

  /** Appending a line and a run to the lines so far, regrouped. */
  lemma Regroup(spans: seq<Span>, line: Span, run: seq<Span>, rest: seq<Span>)
    ensures spans + ([line] + (run + rest)) == spans + [line] + run + rest
  {
  }

  /** The first n bytes of before (as far as it goes) are the first bytes of after. */
  ghost predicate KeepsPrefix(before: seq<byte>, after: seq<byte>, n: nat)
  {
    forall i :: 0 <= i < n && i < |before| ==> i < |after| && after[i] == before[i]
  }

  /** A block that Refits u keeps u's bytes as far as both go. */
  lemma RefitsKeep(u: Used, r: Used, sz: nat, g: nat)
    requires Refits(u, r, sz, g)
    ensures forall n: nat :: n <= |r.data| ==> KeepsPrefix(u.data, r.data, n)
  {
    var m := if |r.data| < |u.data| then |r.data| else |u.data|;
    forall n: nat | n <= |r.data| ensures KeepsPrefix(u.data, r.data, n) {
      forall i | 0 <= i < n && i < |u.data| ensures i < |r.data| && r.data[i] == u.data[i] {
        assert r.data[..m][i] == u.data[..m][i];
      }
    }
  }

  /**
   * The client map after case 4.1: once b was handed out (used1), copying
   * o's bytes over the start of b's and dropping o leaves b with o's bytes
   * first, its length and guards as they were, and every other block alone.
   */
  lemma CopyIntoFresh(used: map<nat, Used>, used1: map<nat, Used>, used2: map<nat, Used>, o: nat, b: nat)
    requires o in used && o != b && b in used1 && used1 == used[b := used1[b]]
    requires |used[o].data| <= |used1[b].data|
    requires used2 == used1[b := used1[b].(data := CopiedOver(used1[b].data, used1[o].data))] - {o}
    ensures b in used2 && used2[b].guard == used1[b].guard && used2[b].trailer == used1[b].trailer
    ensures |used2[b].data| == |used1[b].data| && used2[b].data[..|used[o].data|] == used[o].data
    ensures used2 == (used - {o})[b := used2[b]]
  {
    var src := used[o].data;
    assert used1[o] == used[o];
    var c := CopiedOver(used1[b].data, src);
    assert used2[b] == used1[b].(data := c);
    assert c[..|src|] == src;
  }

  class Heap {
    const base: nat
    const total: nat
    const secret: nat
    var fit: Strategy
    var free: seq<nat>
    var size: map<nat, nat>
    var used: map<nat, Used>

    ghost predicate Valid()
      reads this
    {
      && 0 < base && FREE_HDR <= total && base + total <= WORD
      && Consistent(total, Headers(free, size), used)
    }

    function Current(): Headers
      reads this`free, this`size
    {
      Headers(free, size)
    }

    /** The pointers mem_free, mem_get_size and mem_realloc accept: between MEM_SPACE_MIN and MEM_SPACE_MAX. */
    predicate InRange(p: nat)
    {
      p != NULL && base + MIN_HDR <= p && p < base + total - 1
    }

    /** The header offset of the block whose client bytes start at p. */
    function BlockOf(p: nat): nat
      requires base + ALLOC_HDR <= p
    {
      p - base - ALLOC_HDR
    }

    /** p is where the client bytes of an allocated block start. */
    predicate Live(p: nat)
      reads this`used
    {
      InRange(p) && BlockOf(p) in used
    }

    /** The guard value of the block whose header is at offset o. */
    function GuardAt(o: nat): nat
    {
      GuardOf(base + o, secret)
    }

    /** Both guards of the allocated block at o hold the value its address calls for. */
    predicate Intact(o: nat)
      reads this`used
    {
      o in used && used[o].guard == GuardAt(o) && used[o].trailer == GuardAt(o)
    }

    twostate predicate Untouched()
      reads this
    {
      free == old(free) && size == old(size) && used == old(used)
    }

    /**
     * mem_init: one free block spans the region, its header at the start and
     * its size the region less that header; the secret is set and first fit
     * is selected.
     */
    constructor Init(base: nat, total: nat)
      requires 0 < base && FREE_HDR <= total && base + total <= WORD
      ensures Valid()
      ensures this.base == base && this.total == total
      ensures free == [0] && size == map[0 := total - FREE_HDR] && used == map[]
      ensures secret == SECRET && fit == First
    {
      this.base := base;
      this.total := total;
      free := [0];
      size := map[0 := total - FREE_HDR];
      used := map[];
      secret := SECRET;
      fit := First;
    }

    /** mem_set_fit_handler. */
    method SetFitHandler(s: Strategy)
      modifies this`fit
      ensures fit == s
    {
      fit := s;
    }

    /** remove_block: unlinks b if it is the node at slot k. */
    method RemoveBlock(k: nat, b: nat)
      requires k <= |free|
      modifies this`free
      ensures free == Remove(old(free), b, k)
    {
      if k < |free| && free[k] == b {
        free := free[..k] + free[k + 1..];
      }
    }

    /** insert_block: links the block b in at slot k, fusing with the neighbours it touches. */
    method InsertBlock(k: nat, b: nat)
      requires Listed(free, size) && b in size && b !in free && IsSlot(free, b, k)
      modifies this`free, this`size
      ensures Current() == Insert(old(Current()), b, k)
    {
      var right := k < |free| && b + size[b] + FREE_HDR == free[k];
      if right {
        size := Fused(size, b, free[k]);
      }
      if k > 0 && free[k - 1] + FREE_HDR + size[free[k - 1]] == b {
        size := Fused(size, free[k - 1], b);
        if right {
          free := RemoveAt(free, k);
        }
      } else if right {
        free := free[k := b];
      } else {
        free := InsertAt(free, k, b);
      }
    }

    /**
     * What mem_alloc(n) does. If n + 8 does not fit in a size_t it returns
     * NULL (the corrected behaviour, see Findings). Otherwise the active
     * strategy picks a free block among the free list's sizes. If none
     * fits, NULL is returned and nothing changes. Otherwise the block is
     * taken as Allocated says, both of its guards are written, and the
     * address of its client bytes is returned.
     */
    twostate predicate Allocates(n: nat, p: nat, new choice: Option<nat>)
      reads this
    {
      if WORD <= n + GUARD_SIZE then p == NULL && Untouched()
      else Places(n + GUARD_SIZE, p, choice)
    }

    /**
     * The strategy's search for a block of need bytes gave choice; with no
     * block chosen nothing changed and p is NULL, otherwise need bytes were
     * taken from the chosen block.
     */
    twostate predicate Places(need: nat, p: nat, new choice: Option<nat>)
      reads this
    {
      && Picks(fit, SizesOf(old(Current())), need, choice)
      && (choice.None? ==> p == NULL && Untouched())
      && (choice.Some? ==> Grants(need, p, choice.value))
    }

    /**
     * (h', used') is (h, used) after mem_alloc took need bytes from the free
     * block at index k of h's free list and returned p: the headers are
     * Allocated's, and the block's guards are written around client bytes
     * whose value is not chosen.
     */
    ghost predicate Takes(h: Headers, used: map<nat, Used>, need: nat, p: nat, k: nat,
                          h': Headers, used': map<nat, Used>)
    {
      && k < |h.free| && h.free[k] in h.size && need <= h.size[h.free[k]]
      && TakesFrom(h.free[k], Allocated(h, k, need), used, need, p, h', used')
    }

    /** The second half of Takes: b is the block taken and h1 the headers once it was. */
    ghost predicate TakesFrom(b: nat, h1: Headers, used: map<nat, Used>, need: nat, p: nat,
                              h': Headers, used': map<nat, Used>)
    {
      && p == base + b + ALLOC_HDR
      && h' == h1
      && b in h'.size && GUARD_SIZE <= need <= h'.size[b]
      && b in used' && Granted(used'[b], h'.size[b], GuardAt(b))
      && used' == used[b := used'[b]]
    }

    /**
     * Case 4.1 went from (h, used) to (h', used'): need bytes were taken from
     * the free block at index k, giving the client address q; the client
     * bytes of the block o were copied over the start of the new block's;
     * then o was freed.
     */
    ghost predicate Moved(h: Headers, used: map<nat, Used>, o: nat, need: nat, q: nat, k: nat,
                          h': Headers, used': map<nat, Used>)
    {
      && k < |h.free| && h.free[k] in h.size && need <= h.size[h.free[k]]
      && MovedInto(h.free[k], Allocated(h, k, need), used, o, q, h', used')
    }

    /** The second half of Moved: h1 is the state once the block b was allocated. */
    ghost predicate MovedInto(b: nat, h1: Headers, used: map<nat, Used>, o: nat, q: nat,
                              h': Headers, used': map<nat, Used>)
    {
      && o in used && b in h1.size && GUARD_SIZE <= h1.size[b]
      && |used[o].data| <= h1.size[b] - GUARD_SIZE
      && Listed(h1.free, h1.size) && o in h1.size && o !in h1.free
      && q == base + b + ALLOC_HDR
      && h' == Insert(h1, o, Slot(h1.free, o))
      && b != o && b in used' && Granted(used'[b], h1.size[b], GuardAt(b))
      && used'[b].data[..|used[o].data|] == used[o].data
      && used' == (used - {o})[b := used'[b]]
    }

    /** mem_alloc took need bytes from the free block at index k of the old free list. */
    twostate predicate Grants(need: nat, p: nat, k: nat)
      reads this
    {
      Takes(old(Current()), old(used), need, p, k, Current(), used)
    }

    /** mem_alloc. */
    method Alloc(n: nat) returns (p: nat, ghost choice: Option<nat>)
      requires Valid()
      modifies this`free, this`size, this`used
      ensures Valid()
      ensures Allocates(n, p, choice)
      ensures p != NULL ==> Live(p) && Intact(BlockOf(p)) && n + GUARD_SIZE <= size[BlockOf(p)]
    {
      if WORD <= n + GUARD_SIZE {
        return NULL, None;
      }
      p, choice := AllocBlock(n + GUARD_SIZE);
    }

    /**
     * The size of a block just taken (what mem_get_size reports, plus the
     * trailing guard): at least what was asked for, at most SPLIT_LIMIT
     * more, and exactly what was asked for when the free block was split.
     */
    lemma TakenSize(h: Headers, u: map<nat, Used>, need: nat, p: nat, k: nat, h': Headers, u': map<nat, Used>)
      requires Ordered(h.free, h.size) && Tiles(h.size, total)
      requires Takes(h, u, need, p, k, h', u')
      ensures p - base - ALLOC_HDR == h.free[k] && h.free[k] in h'.size
      ensures need <= h'.size[h.free[k]] <= need + SPLIT_LIMIT
      ensures h.size[h.free[k]] - need > SPLIT_LIMIT ==> h'.size[h.free[k]] == need
    {
      AllocatedBlock(h, total, k, need);
    }

    /**
     * Steps 1 to 4 of mem_alloc for a request of need bytes, guard word
     * included: the strategy searches the free list and, if it finds a
     * block, need bytes are taken from it.
     */
    method AllocBlock(need: nat) returns (p: nat, ghost choice: Option<nat>)
      requires Valid() && GUARD_SIZE <= need < WORD
      modifies this`free, this`size, this`used
      ensures Valid()
      ensures Places(need, p, choice)
      ensures p != NULL ==> Live(p) && Intact(BlockOf(p)) && need <= size[BlockOf(p)]
      ensures p != NULL ==> choice.Some? && Takes(old(Current()), old(used), need, p, choice.value, Current(), used)
    {
      SizesBelowTotal(Current(), total);
      var pick := Select(fit, SizesOf(Current()), need);
      PicksFindsIffFits(fit, SizesOf(Current()), need, pick);
      choice := pick;
      if pick.None? {
        return NULL, None;
      }
      p := Grant(pick.value, need);
    }

    /**
     * Steps 2 to 4 of mem_alloc once the strategy picked the free block at
     * index k: the block is taken as Allocated says, both of its guards are
     * written, and the address of its client bytes is returned.
     */
    method Grant(k: nat, need: nat) returns (p: nat)
      requires Valid() && k < |free| && need <= size[free[k]] && GUARD_SIZE <= need
      modifies this`free, this`size, this`used
      ensures Valid() && Grants(need, p, k)
      ensures p != NULL && Live(p) && Intact(BlockOf(p)) && need <= size[BlockOf(p)]
    {
      ghost var h0, u0 := Current(), used;
      var b: nat := TakeBlock(k, need);
      Record(h0, u0, k, need, b);
      p := base + b + ALLOC_HDR;
    }

    /**
     * Step 4 of mem_alloc: once TakeBlock took need bytes from the block b at
     * index k of h0, the guard is written into b's header and into the
     * trailing word after its client bytes.
     */
    method Record(ghost h0: Headers, ghost u0: map<nat, Used>, ghost k: nat, ghost need: nat, b: nat)
      requires 0 < base && FREE_HDR <= total && base + total <= WORD && Consistent(total, h0, u0)
      requires k < |h0.free| && need <= h0.size[h0.free[k]] && GUARD_SIZE <= need
      requires b == h0.free[k] && Current() == Allocated(h0, k, need) && used == u0
      modifies this`used
      ensures Valid() && Takes(h0, u0, need, base + b + ALLOC_HDR, k, Current(), used)
      ensures Live(base + b + ALLOC_HDR) && Intact(b) && need <= size[b]
    {
      GrantConsistent(total, h0, u0, k, need, GuardAt(b), b, Current());
      used := used[b := Used(GuardAt(b), Unset(size[b] - GUARD_SIZE), GuardAt(b))];
      assert BlockOf(base + b + ALLOC_HDR) == b;
    }

    /**
     * Steps 2 and 3 of mem_alloc: unlink the free block at index i and, when
     * more than SPLIT_LIMIT bytes would be left over, link a free block
     * holding the rest in where it was.
     */
    method TakeBlock(i: nat, need: nat) returns (b: nat)
      requires Ordered(free, size) && Tiles(size, total)
      requires i < |free| && need <= size[free[i]]
      modifies this`free, this`size
      ensures b == old(free)[i]
      ensures Current() == Allocated(old(Current()), i, need)
    {
      ghost var h0 := Current();
      b := free[i];
      var k := SearchBlock(free, b);
      SlotOfEntry(free, size, i);
      RemoveBlock(k, b);
      if size[b] - need > SPLIT_LIMIT {
        LinkRest(h0, k, b, need);
      }
    }

    /**
     * Step 3 of mem_alloc when the block at index k was split: the header
     * of a free block holding the rest is written right after the need
     * bytes taken, that block is linked in where b was, and b's header
     * records need.
     */
    method LinkRest(ghost h0: Headers, k: nat, b: nat, need: nat)
      requires Ordered(h0.free, h0.size) && Tiles(h0.size, total)
      requires k < |h0.free| && b == h0.free[k] && need <= h0.size[b] && h0.size[b] - need > SPLIT_LIMIT
      requires free == RemoveAt(h0.free, k) && size == h0.size
      modifies this`free, this`size
      ensures Current() == Allocated(h0, k, need)
    {
      var c := b + ALLOC_HDR + need;
      size := size[c := size[b] - need - ALLOC_HDR];
      SplitLinked(h0, total, k, need, Current(), c);
      InsertBlock(k, c);
      size := size[b := need];
    }

    /**
     * mem_free. NULL and pointers outside the region are ignored. A block
     * whose header guard or trailing guard is wrong makes the call abort
     * (Aborted, nothing changed). Otherwise the block is linked back into
     * the free list at its slot, fusing with free neighbours.
     */
    method Free(p: nat) returns (st: Status)
      requires Valid() && (InRange(p) ==> Live(p))
      modifies this`free, this`size, this`used
      ensures Valid()
      ensures st == Aborted <==> InRange(p) && !old(Intact(BlockOf(p)))
      ensures !InRange(p) || st == Aborted ==> Untouched()
      ensures InRange(p) && st == Done ==>
                var o := BlockOf(p);
                && Current() == Insert(old(Current()), o, Slot(old(free), o))
                && used == old(used) - {o}
    {
      if !InRange(p) {
        return Done;
      }
      var o := p - base - ALLOC_HDR;
      var g := GuardAt(o);
      if used[o].guard != g {
        return Aborted;
      }
      if used[o].trailer != g {
        return Aborted;
      }
      ghost var h0 := Current();
      var k := SearchBlock(free, o);
      InsertBlock(k, o);
      used := used - {o};
      FreeConsistent(total, h0, old(used), o);
      return Done;
    }

    /**
     * mem_get_size: 0 for NULL, for a pointer outside the region and for a
     * block whose guards are wrong; otherwise the block's size less the
     * trailing guard.
     */
    function GetSize(p: nat): (r: nat)
      requires Valid() && (InRange(p) ==> Live(p))
      reads this
      ensures !InRange(p) || !Intact(BlockOf(p)) ==> r == 0
      ensures InRange(p) && Intact(BlockOf(p)) ==> r + GUARD_SIZE == size[BlockOf(p)]
    {
      if !InRange(p) then 0
      else
        var o := p - base - ALLOC_HDR;
        var g := GuardAt(o);
        if used[o].guard != g then 0
        else if used[o].trailer != g then 0
        else size[o] - GUARD_SIZE
    }

    /**
     * A client store of the byte v at offset i of the block whose client
     * bytes start at p: the block's bytes become Stored(u, i, v), nothing
     * else changes (StoreBreaksGuard says what that does to its guards).
     */
    method WriteByte(p: nat, i: nat, v: byte)
      requires Valid() && Live(p) && i < size[BlockOf(p)]
      modifies this`used
      ensures Valid()
      ensures used == old(used)[BlockOf(p) := Stored(old(used[BlockOf(p)]), i, v)]
    {
      var o := p - base - ALLOC_HDR;
      StoreConsistent(total, Current(), used, o, Stored(used[o], i, v));
      used := used[o := Stored(used[o], i, v)];
    }

    /**
     * One inner walk of mem_show: the lines of the allocated blocks from the
     * block at a0 up to the free block stop or, when no free block follows,
     * to the end of the region.
     */
    method ShowRun(a0: nat, stop: Option<nat>) returns (run: seq<Span>, a: nat)
      requires Tiles(size, total) && RunBounds(Current(), total, a0, stop)
      ensures a == if stop.Some? then stop.value else total
      ensures Walk(base, total, Current(), a0) == run + Walk(base, total, Current(), a)
    {
      ghost var h := Current();
      run := [];
      a := a0;
      while (stop.None? || a != stop.value) && a < total - 1
        invariant a in h.size || a == total
        invariant a0 <= a && (stop.Some? ==> a <= stop.value)
        invariant Walk(base, total, h, a0) == run + Walk(base, total, h, a)
        decreases total - a
      {
        var line := Span(base + a + ALLOC_HDR, SizeSub(size[a], GUARD_SIZE), false);
        assert a !in h.free;
        WalkStep(base, total, h, a0, run, a);
        run := run + [line];
        a := End(a, size);
      }
      if a in size {
        Successor(size, total, a);
      }
      if stop.Some? {
        Successor(size, total, stop.value);
      }
    }

    /**
     * mem_show: the lines printed, one per block in address order, as the
     * walk from the region's start gives them.
     */
    method Show() returns (spans: seq<Span>)
      requires Ordered(free, size) && Tiles(size, total)
      ensures spans == Walk(base, total, Current(), 0)
    {
      var first: Option<nat> := if |free| == 0 then None else Some(free[0]);
      RunBeforeFree(Current(), total, first);
      var a;
      spans, a := ShowRun(0, first);
      var j := 0;
      while j < |free|
        invariant j <= |free|
        invariant j < |free| ==> a == free[j]
        invariant j == |free| ==> a == total
        invariant spans + Walk(base, total, Current(), a) == Walk(base, total, Current(), 0)
      {
        spans, a := ShowFree(j, spans);
        j := j + 1;
      }
    }

    /**
     * One round of mem_show's outer loop: the line of the j-th free block,
     * then those of the allocated blocks up to the next free block.
     */
    method ShowFree(j: nat, spans: seq<Span>) returns (spans': seq<Span>, a: nat)
      requires Ordered(free, size) && Tiles(size, total) && j < |free|
      requires spans + Walk(base, total, Current(), free[j]) == Walk(base, total, Current(), 0)
      ensures a == if j + 1 < |free| then free[j + 1] else total
      ensures a in size || a == total
      ensures spans' + Walk(base, total, Current(), a) == Walk(base, total, Current(), 0)
    {
      ghost var h := Current();
      var f := free[j];
      var line := Span(base + f + FREE_HDR, SizeSub(size[f], GUARD_SIZE), true);
      var next: Option<nat> := if j + 1 < |free| then Some(free[j + 1]) else None;
      RunAfterFree(h, total, j, next);
      var run;
      run, a := ShowRun(End(f, size), next);
      FreeStep(base, total, h, j, spans, line, run, a);
      spans' := spans + [line] + run;
    }

    /**
     * The block o records sz bytes from now on: the trailing guard is
     * written at its new end, the header guard and the client's bytes that
     * still fit stay (Refit).
     */
    method RefitBlock(o: nat, sz: nat)
      requires 0 < base && FREE_HDR <= total && base + total <= WORD && o in used && GUARD_SIZE <= sz
      requires Consistent(total, Current(), used[o := Refit(used[o], sz, GuardAt(o))])
      modifies this`used
      ensures Valid()
      ensures o in used && Refits(old(used)[o], used[o], sz, GuardAt(o)) && used == old(used)[o := used[o]]
    {
      used := used[o := Refit(used[o], sz, GuardAt(o))];
    }

    /**
     * The header side of cases 3.1 and 4.2.2 of mem_realloc: the free block
     * at index k, right after the block o, is unlinked; the header of a free
     * block ending where it ended is written where o will end; that block is
     * linked in at the same slot; o's header records need.
     */
    method ShiftHeaders(o: nat, k: nat, need: nat)
      requires Ordered(free, size) && Tiles(size, total) && o in size && o !in free
      requires k < |free| && free[k] == End(o, size) && need <= size[o] + size[free[k]]
      modifies this`free, this`size
      ensures Current() == Shifted(old(Current()), k, o, need)
    {
      ghost var h0 := Current();
      var c := free[k];
      RemoveBlock(k, c);
      LinkShifted(h0, k, c, o, need);
    }

    /**
     * The rest of ShiftHeaders once the free block c at index k of h0 is
     * unlinked: the new free block's header is written, that block is
     * linked in at slot k, and o's header records need.
     */
    method LinkShifted(ghost h0: Headers, k: nat, c: nat, o: nat, need: nat)
      requires Ordered(h0.free, h0.size) && Tiles(h0.size, total) && o in h0.size && o !in h0.free
      requires k < |h0.free| && c == h0.free[k] == End(o, h0.size) && need <= h0.size[o] + h0.size[c]
      requires free == RemoveAt(h0.free, k) && size == h0.size
      modifies this`free, this`size
      ensures Current() == Shifted(h0, k, o, need)
    {
      var c' := o + ALLOC_HDR + need;
      size := (size - {c})[c' := size[c] + size[o] - need];
      ShiftLinked(h0, total, k, o, need, Current(), c');
      InsertBlock(k, c');
      size := size[o := need];
    }

    /**
     * The header side of case 3.2.2 of mem_realloc: the header of a free
     * block holding the tail is written right after the need bytes o keeps,
     * that block is linked in at slot k, and o's header records need.
     */
    method CarveHeaders(o: nat, k: nat, need: nat)
      requires Ordered(free, size) && Tiles(size, total) && o in size && o !in free
      requires need + FREE_HDR <= size[o]
      requires IsSlot(free, End(o, size), k) && !(k < |free| && free[k] == End(o, size))
      modifies this`free, this`size
      ensures Current() == CarvedOff(old(Current()), k, o, need)
    {
      ghost var h0 := Current();
      var c := o + ALLOC_HDR + need;
      size := size[c := size[o] - need - FREE_HDR];
      CarveLinked(h0, total, k, o, need, Current(), c);
      InsertBlock(k, c);
      size := size[o := need];
    }

    /**
     * The header side of case 4.2.1 of mem_realloc: the free block at index
     * k, right after the block o, is unlinked and o's header grows by it,
     * header included.
     */
    method AbsorbHeaders(o: nat, k: nat)
      requires o in size && k < |free| && free[k] in size && free[k] == End(o, size)
      modifies this`free, this`size
      ensures Current() == Absorbed(old(Current()), k, o)
    {
      var c := free[k];
      RemoveBlock(k, c);
      size := Fused(size, o, c);
    }

    /**
     * Cases 3.1 and 4.2.2 of mem_realloc: the boundary between the block o
     * and the free block at index k right after it moves so that o holds
     * need bytes, and o's trailing guard is written at its new end. (Case
     * 3.1 unlinks the free block before writing the new header; see
     * Findings.)
     */
    method MoveBoundary(o: nat, k: nat, need: nat)
      requires Valid() && o in used && k < |free| && free[k] == End(o, size)
      requires GUARD_SIZE <= need <= size[o] + size[free[k]]
      modifies this`free, this`size, this`used
      ensures Valid()
      ensures Current() == Shifted(old(Current()), k, o, need)
      ensures o in used && Refits(old(used)[o], used[o], need, GuardAt(o)) && used == old(used)[o := used[o]]
    {
      ShiftConsistent(total, Current(), used, k, o, need, GuardAt(o));
      ShiftHeaders(o, k, need);
      RefitBlock(o, need);
    }

    /**
     * Case 3.2.2 of mem_realloc: the tail of the block o becomes a free
     * block linked in at slot k, o holds need bytes, and its trailing guard
     * is written at its new end.
     */
    method CarveTail(o: nat, k: nat, need: nat)
      requires Valid() && o in used && GUARD_SIZE <= need && need + FREE_HDR <= size[o]
      requires IsSlot(free, End(o, size), k) && !(k < |free| && free[k] == End(o, size))
      modifies this`free, this`size, this`used
      ensures Valid()
      ensures k <= |old(free)| && Current() == CarvedOff(old(Current()), k, o, need)
      ensures o in used && Refits(old(used)[o], used[o], need, GuardAt(o)) && used == old(used)[o := used[o]]
    {
      CarveConsistent(total, Current(), used, k, o, need, GuardAt(o));
      CarveHeaders(o, k, need);
      RefitBlock(o, need);
    }

    /**
     * Case 4.2.1 of mem_realloc: the block o absorbs the free block at index
     * k right after it, and its trailing guard is written at its new end.
     */
    method AbsorbRight(o: nat, k: nat)
      requires Valid() && o in used && k < |free| && free[k] == End(o, size)
      modifies this`free, this`size, this`used
      ensures Valid()
      ensures Current() == Absorbed(old(Current()), k, o)
      ensures o in size && o in used && Refits(old(used)[o], used[o], size[o], GuardAt(o)) && used == old(used)[o := used[o]]
    {
      AbsorbConsistent(total, Current(), used, k, o, GuardAt(o));
      AbsorbHeaders(o, k);
      RefitBlock(o, size[o]);
    }

    /**
     * What mem_realloc(p, n) does. NULL behaves as mem_alloc(n); a pointer
     * outside the region gives NULL and changes nothing; size 0 frees the
     * block and returns mem_alloc(0); a size whose n + 8 does not fit in a
     * size_t gives NULL and changes nothing (the corrected behaviour, see
     * Findings); otherwise Resizes says what happens.
     */
    twostate predicate Reallocates(p: nat, n: nat, r: Outcome, new choice: Option<nat>)
      reads this
    {
      if p == NULL then r.Returned? && Allocates(n, r.ptr, choice)
      else if !InRange(p) then r == Returned(NULL) && Untouched()
      else if n == 0 then FreesThenAllocates(BlockOf(p), r, choice)
      else if WORD <= n + GUARD_SIZE then r == Returned(NULL) && Untouched()
      else Resizes(BlockOf(p), n, r, choice)
    }

    /**
     * Case 1 of mem_realloc for the allocated block o: a block whose guards
     * are wrong makes mem_free abort; otherwise o is freed and mem_alloc(0)
     * then takes GUARD_SIZE bytes from the block the strategy picks, which
     * always exists.
     */
    twostate predicate FreesThenAllocates(o: nat, r: Outcome, new choice: Option<nat>)
      reads this
    {
      && o in old(used) && o in old(size) && o !in old(free) && Listed(old(free), old(size))
      && if !old(Intact(o)) then r == Abort && Untouched()
         else
           var h1 := Insert(old(Current()), o, Slot(old(free), o));
           && r.Returned? && r.ptr != NULL && choice.Some?
           && Picks(fit, SizesOf(h1), GUARD_SIZE, choice)
           && Takes(h1, old(used) - {o}, GUARD_SIZE, r.ptr, choice.value, Current(), used)
    }

    /**
     * mem_realloc on the allocated block o for n > 0 bytes with n + 8
     * fitting in a size_t: a block whose guards are wrong makes the call
     * abort; otherwise the block is resized in place along PlanOf's path,
     * keeping its address, or relocated.
     */
    twostate predicate Resizes(o: nat, n: nat, r: Outcome, new choice: Option<nat>)
      reads this
    {
      && o in old(used) && o in old(size)
      && if !old(Intact(o)) then r == Abort && Untouched()
         else
           var plan := PlanOf(old(size)[o], n + GUARD_SIZE, RightOf(old(Current()), o));
           if plan == Move then r.Returned? && Relocates(o, n, r.ptr, choice)
           else r == Returned(base + o + ALLOC_HDR) && ResizedInPlace(o, n + GUARD_SIZE, plan)
    }

    /**
     * mem_realloc resized the allocated block o in place along plan so that
     * it holds need bytes, guard word included; k is where search_block
     * stopped for the block c right after o. Every path but Keep writes the
     * trailing guard at the block's new end.
     */
    twostate predicate ResizedInPlace(o: nat, need: nat, plan: Plan)
      reads this
    {
      && o in old(size) && o in old(used) && GUARD_SIZE <= need
      && var h0 := old(Current()); var c := End(o, old(size));
         var k := Slot(h0.free, c);
         match plan
         case Keep => Untouched()
         case Carve =>
           && need + FREE_HDR <= h0.size[o]
           && Current() == CarvedOff(h0, k, o, need)
           && o in used && Refits(old(used)[o], used[o], need, GuardAt(o)) && used == old(used)[o := used[o]]
         case Absorb =>
           && k < |h0.free| && h0.free[k] == c && c in h0.size
           && Current() == Absorbed(h0, k, o)
           && o in size && o in used && Refits(old(used)[o], used[o], size[o], GuardAt(o)) && used == old(used)[o := used[o]]
         case Move => false
         case _ =>
           && k < |h0.free| && h0.free[k] == c && c in h0.size && need <= h0.size[o] + h0.size[c]
           && Current() == Shifted(h0, k, o, need)
           && o in used && Refits(old(used)[o], used[o], need, GuardAt(o)) && used == old(used)[o := used[o]]
    }

    /**
     * Case 4.1 of mem_realloc for the block o and n client bytes: mem_alloc's
     * search gave choice; with no block chosen q is NULL and nothing changed;
     * otherwise n + 8 bytes were taken from the chosen block, o's client
     * bytes were copied over the start of its client bytes, and o was freed.
     */
    twostate predicate Relocates(o: nat, n: nat, q: nat, new choice: Option<nat>)
      reads this
    {
      var h0 := old(Current()); var need := n + GUARD_SIZE;
      && Picks(fit, SizesOf(h0), need, choice)
      && (choice.None? ==> q == NULL && Untouched())
      && (choice.Some? ==> Moved(h0, old(used), o, need, q, choice.value, Current(), used))
    }

    /** mem_realloc. */
    method Realloc(p: nat, n: nat) returns (r: Outcome, ghost choice: Option<nat>)
      requires Valid() && (InRange(p) ==> Live(p))
      modifies this`free, this`size, this`used
      ensures Valid()
      ensures Reallocates(p, n, r, choice)
      ensures InRange(p) && r.Returned? && r.ptr != NULL ==> base + ALLOC_HDR <= r.ptr && BlockOf(r.ptr) in used
      ensures InRange(p) && r.Returned? && r.ptr != NULL ==>
                KeepsPrefix(old(used)[BlockOf(p)].data, used[BlockOf(r.ptr)].data, n)
    {
      if p == NULL {
        var q;
        q, choice := Alloc(n);
        return Returned(q), choice;
      }
      if !InRange(p) {
        return Returned(NULL), None;
      }
      if n == 0 {
        r, choice := FreeThenAlloc(p);
        return;
      }
      if WORD <= n + GUARD_SIZE {
        return Returned(NULL), None;
      }
      r, choice := Resize(p, n);
    }

    /** Case 1 of mem_realloc: mem_free, then mem_alloc(0). */
    method FreeThenAlloc(p: nat) returns (r: Outcome, ghost choice: Option<nat>)
      requires Valid() && Live(p)
      modifies this`free, this`size, this`used
      ensures Valid()
      ensures FreesThenAllocates(BlockOf(p), r, choice)
      ensures r.Returned? ==> base + ALLOC_HDR <= r.ptr && BlockOf(r.ptr) in used
    {
      var o: nat := BlockOf(p);
      ghost var h1 := Insert(Current(), o, Slot(free, o));
      ghost var u1 := used - {o};
      RoomAfterFree(Current(), total, o);
      var st := Free(p);
      if st == Aborted {
        return Abort, None;
      }
      assert Current() == h1 && used == u1;
      var q;
      q, choice := AllocBlock(GUARD_SIZE);  // mem_alloc(0): 0 + 8 cannot overflow
      assert Picks(fit, SizesOf(h1), GUARD_SIZE, choice);
      PicksFindsIffFits(fit, SizesOf(h1), GUARD_SIZE, choice);
      assert choice.Some? && q != NULL;
      assert Takes(h1, u1, GUARD_SIZE, q, choice.value, Current(), used);
      TakenLive(h1, u1, GUARD_SIZE, q, choice.value, Current(), used);
      return Returned(q), choice;
    }

    /** A block just taken is allocated, its client bytes after its header. */
    lemma TakenLive(h: Headers, u: map<nat, Used>, need: nat, p: nat, k: nat, h': Headers, u': map<nat, Used>)
      requires Takes(h, u, need, p, k, h', u')
      ensures base + ALLOC_HDR <= p && BlockOf(p) == h.free[k] && BlockOf(p) in u'
    {
    }

    /**
     * Cases 2 to 4 of mem_realloc: both guards are checked, then the block
     * keeps its size, shrinks or grows.
     */
    method Resize(p: nat, n: nat) returns (r: Outcome, ghost choice: Option<nat>)
      requires Valid() && Live(p) && 0 < n && n + GUARD_SIZE < WORD
      modifies this`free, this`size, this`used
      ensures Valid()
      ensures Resizes(BlockOf(p), n, r, choice)
      ensures r.Returned? && r.ptr != NULL ==> base + ALLOC_HDR <= r.ptr && BlockOf(r.ptr) in used
      ensures r.Returned? && r.ptr != NULL ==> KeepsPrefix(old(used)[BlockOf(p)].data, used[BlockOf(r.ptr)].data, n)
    {
      var o: nat := BlockOf(p);
      var g := GuardAt(o);
      if used[o].guard != g || used[o].trailer != g {
        return Abort, None;
      }
      var need := n + GUARD_SIZE;
      var q;
      q, choice := Reshape(p, n, need);
      return Returned(q), choice;
    }

    /**
     * Cases 2 to 4 of mem_realloc once the guards are checked: the block at
     * p is asked to hold need bytes, guard word included.
     */
    method Reshape(p: nat, n: nat, need: nat) returns (q: nat, ghost choice: Option<nat>)
      requires Valid() && Live(p) && Intact(BlockOf(p)) && 0 < n && need == n + GUARD_SIZE < WORD
      modifies this`free, this`size, this`used
      ensures Valid()
      ensures Resizes(BlockOf(p), n, Returned(q), choice)
      ensures q != NULL ==> base + ALLOC_HDR <= q && BlockOf(q) in used
      ensures q != NULL ==> KeepsPrefix(old(used)[BlockOf(p)].data, used[BlockOf(q)].data, n)
    {
      var o: nat := BlockOf(p);
      assert p == base + o + ALLOC_HDR;
      q, choice := p, None;
      if need == size[o] {
        return;
      }
      var k := SearchBlock(free, End(o, size));
      if need < size[o] {
        Shrink(o, k, need);
      } else {
        q, choice := Grow(p, k, n, need);
      }
    }

    /**
     * Case 3 of mem_realloc: the block o shrinks to need bytes; k is where
     * search_block stopped for the block right after it.
     */
    method Shrink(o: nat, k: nat, need: nat)
      requires Valid() && o in used && GUARD_SIZE <= need < size[o]
      requires k == Slot(free, End(o, size))
      modifies this`free, this`size, this`used
      ensures Valid()
      ensures ResizedInPlace(o, need, PlanOf(old(size[o]), need, RightOf(old(Current()), o)))
      ensures o in used && KeepsPrefix(old(used)[o].data, used[o].data, need - GUARD_SIZE)
    {
      var c := End(o, size);
      SearchFinds(free, size, c);
      if k < |free| && free[k] == c {
        MoveBoundary(o, k, need);
        RefitsKeep(old(used)[o], used[o], need, GuardAt(o));
      } else if size[o] - need > SPLIT_LIMIT {
        CarveTail(o, k, need);
        RefitsKeep(old(used)[o], used[o], need, GuardAt(o));
      }
    }

    /**
     * Case 4 of mem_realloc: the block whose client bytes start at p grows
     * to hold n client bytes; k is where search_block stopped for the block
     * right after it.
     */
    method Grow(p: nat, k: nat, n: nat, need: nat) returns (q: nat, ghost choice: Option<nat>)
      requires Valid() && Live(p) && Intact(BlockOf(p)) && need == n + GUARD_SIZE && size[BlockOf(p)] < need < WORD
      requires k == Slot(free, End(BlockOf(p), size))
      modifies this`free, this`size, this`used
      ensures Valid()
      ensures var o := BlockOf(p);
              var plan := PlanOf(old(size[o]), need, RightOf(old(Current()), o));
              if plan == Move then Relocates(o, n, q, choice)
              else q == p && ResizedInPlace(o, need, plan)
      ensures q != NULL ==> base + ALLOC_HDR <= q && BlockOf(q) in used
      ensures q != NULL ==> KeepsPrefix(old(used)[BlockOf(p)].data, used[BlockOf(q)].data, n)
    {
      var o: nat := BlockOf(p);
      var c := End(o, size);
      SearchFinds(free, size, c);
      if !(k < |free| && free[k] == c) || size[c] + FREE_HDR < need - size[o] {
        q, choice := Relocate(p, n);
        return;
      }
      GrowInPlace(o, k, need);
      q, choice := p, None;
    }

    /**
     * Case 4.2 of mem_realloc: the free block right after o, at index k of
     * the list, is big enough for o to grow to need bytes; it is absorbed
     * whole or gives up its head.
     */
    method GrowInPlace(o: nat, k: nat, need: nat)
      requires Valid() && o in used && k == Slot(free, End(o, size))
      requires k < |free| && free[k] == End(o, size) && size[o] < need <= size[o] + FREE_HDR + size[free[k]]
      modifies this`free, this`size, this`used
      ensures Valid()
      ensures ResizedInPlace(o, need, PlanOf(old(size[o]), need, RightOf(old(Current()), o)))
      ensures o in used && KeepsPrefix(old(used)[o].data, used[o].data, need - GUARD_SIZE)
    {
      var c := free[k];
      if size[c] - need + size[o] + FREE_HDR <= SPLIT_LIMIT {
        AbsorbRight(o, k);
        RefitsKeep(old(used)[o], used[o], size[o], GuardAt(o));
      } else {
        MoveBoundary(o, k, need);
        RefitsKeep(old(used)[o], used[o], need, GuardAt(o));
      }
    }

    /**
     * Case 4.1 of mem_realloc: mem_alloc(n); if that gives NULL, NULL is
     * returned; otherwise the old client bytes are copied and the old block
     * is freed.
     */
    method Relocate(p: nat, n: nat) returns (q: nat, ghost choice: Option<nat>)
      requires Valid() && Live(p) && Intact(BlockOf(p)) && n + GUARD_SIZE < WORD
      requires |used[BlockOf(p)].data| <= n
      modifies this`free, this`size, this`used
      ensures Valid()
      ensures Relocates(BlockOf(p), n, q, choice)
      ensures q != NULL ==> base + ALLOC_HDR <= q && BlockOf(q) in used
      ensures q != NULL ==> KeepsPrefix(old(used)[BlockOf(p)].data, used[BlockOf(q)].data, n)
    {
      ghost var h0, u0 := Current(), used;
      var need := n + GUARD_SIZE;
      q, choice := AllocBlock(need);
      if q == NULL {
        return;
      }
      FinishMove(p, q, h0, u0, choice.value, need);
      MovedKeeps(h0, u0, BlockOf(p), need, q, choice.value, Current(), used);
    }

    /** Case 4.1 hands back a live block whose first bytes are the old block's. */
    lemma MovedKeeps(h: Headers, used: map<nat, Used>, o: nat, need: nat, q: nat, k: nat,
                     h': Headers, used': map<nat, Used>)
      requires Moved(h, used, o, need, q, k, h', used') && o !in h.free
      ensures base + ALLOC_HDR <= q && BlockOf(q) in used'
      ensures forall n :: KeepsPrefix(used[o].data, used'[BlockOf(q)].data, n)
    {
      var b, h1 := h.free[k], Allocated(h, k, need);
      assert MovedInto(b, h1, used, o, q, h', used');
      assert BlockOf(q) == b;
      var src, dst := used[o].data, used'[b].data;
      forall n: nat ensures KeepsPrefix(src, dst, n) {
        forall i | 0 <= i < n && i < |src| ensures i < |dst| && dst[i] == src[i] {
          assert dst[..|src|][i] == src[i];
        }
      }
    }

    /** Case 4.1 once mem_alloc took need bytes for the block p's bytes and gave q. */
    method FinishMove(p: nat, q: nat, ghost h0: Headers, ghost u0: map<nat, Used>, ghost k: nat, ghost need: nat)
      requires Valid() && Takes(h0, u0, need, q, k, Current(), used) && Live(q)
      requires InRange(p) && BlockOf(p) in u0 && BlockOf(p) !in h0.free
      requires |u0[BlockOf(p)].data| + GUARD_SIZE <= need
      requires u0[BlockOf(p)].guard == GuardAt(BlockOf(p)) == u0[BlockOf(p)].trailer
      modifies this`free, this`size, this`used
      ensures Valid()
      ensures Moved(h0, u0, BlockOf(p), need, q, k, Current(), used)
    {
      ghost var h1, u1 := Current(), used;
      TakenKeeps(h0, u0, need, q, k, h1, u1, BlockOf(p));
      CopyAndFree(p, q);
      MovedAfter(h0, u0, BlockOf(p), need, q, k, h1, u1, Current(), used);
    }

    /** The allocation of case 4.1 leaves every other allocated block as it was. */
    lemma TakenKeeps(h: Headers, used: map<nat, Used>, need: nat, q: nat, k: nat,
                     h': Headers, used': map<nat, Used>, o: nat)
      requires Takes(h, used, need, q, k, h', used') && o in used && o !in h.free
      ensures base + ALLOC_HDR <= q && BlockOf(q) == h.free[k] && o != BlockOf(q)
      ensures BlockOf(q) in used' && o in used' && used'[o] == used[o]
      ensures |used'[BlockOf(q)].data| + GUARD_SIZE == h'.size[BlockOf(q)]
    {
    }

    /**
     * Case 4.1 in one piece: taking the block (h, used) -> (h1, used1), then
     * copying o's bytes into it and freeing o, (h1, used1) -> (h2, used2).
     */
    lemma MovedAfter(h: Headers, used: map<nat, Used>, o: nat, need: nat, q: nat, k: nat,
                     h1: Headers, used1: map<nat, Used>, h2: Headers, used2: map<nat, Used>)
      requires Takes(h, used, need, q, k, h1, used1) && Consistent(total, h1, used1)
      requires o in used && o !in h.free && |used[o].data| + GUARD_SIZE <= need
      requires base + ALLOC_HDR <= q && BlockOf(q) in used1 && o in used1
      requires h2 == Insert(h1, o, Slot(h1.free, o))
      requires used2 == used1[BlockOf(q) := used1[BlockOf(q)].(data := CopiedOver(used1[BlockOf(q)].data, used1[o].data))] - {o}
      ensures Moved(h, used, o, need, q, k, h2, used2)
    {
      var b := h.free[k];
      assert BlockOf(q) == b && h1 == Allocated(h, k, need);
      assert used1 == used[b := used1[b]] && Granted(used1[b], h1.size[b], GuardAt(b));
      CopyIntoFresh(used, used1, used2, o, b);
      assert MovedInto(b, h1, used, o, q, h2, used2);
    }

    /**
     * The rest of case 4.1 once mem_alloc gave q: the client bytes of the
     * block at p are copied to the start of those at q, then p is freed.
     */
    method CopyAndFree(p: nat, q: nat)
      requires Valid() && Live(p) && Intact(BlockOf(p)) && Live(q) && BlockOf(p) != BlockOf(q)
      requires |used[BlockOf(p)].data| <= |used[BlockOf(q)].data|
      modifies this`free, this`size, this`used
      ensures Valid()
      ensures var o := BlockOf(p); var b := BlockOf(q);
              && o in old(used) && b in old(used)
              && |old(used)[o].data| <= |old(used)[b].data|
              && Current() == Insert(old(Current()), o, Slot(old(free), o))
              && used == old(used)[b := old(used)[b].(data := CopiedOver(old(used)[b].data, old(used)[o].data))] - {o}
    {
      CopyData(BlockOf(p), BlockOf(q));
      var st := Free(p);
    }

    /** The memcpy of case 4.1: the client bytes of o are copied over the start of b's. */
    method CopyData(o: nat, b: nat)
      requires Valid() && o in used && b in used && |used[o].data| <= |used[b].data|
      modifies this`used
      ensures Valid()
      ensures used == old(used)[b := old(used)[b].(data := CopiedOver(old(used)[b].data, old(used)[o].data))]
    {
      var u := used[b].(data := CopiedOver(used[b].data, used[o].data));
      StoreConsistent(total, Current(), used, b, u);
      used := used[b := u];
    }
  }
}
