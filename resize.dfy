/**
 * How mem_realloc decides what to do with an allocated block: the path it
 * takes depends only on the block's size, the size asked for (guard word
 * included) and the size of the block right after it when that block is
 * free.
 */
module Plans {
  import opened Block
  import opened Layout
  import opened FreeList

  /** The path mem_realloc takes for a block that is not relocated by a NULL or zero-size call. */
  datatype Plan =
    | Keep      // same size, or a shrink too small to carve (cases 2 and 3.2.1)
    | GiveTail  // shrink; the free right neighbour grows downwards (case 3.1)
    | Carve     // shrink; a new free block holds the tail (case 3.2.2)
    | Absorb    // growth; the free right neighbour is absorbed whole (case 4.2.1)
    | TakeHead  // growth; the free right neighbour gives up its head (case 4.2.2)
    | Move      // growth; allocate, copy and free (case 4.1)

  /**
   * The path for a block of have bytes asked to hold need bytes, where right
   * is the size of the block after it if that block is free. In case 4.2 the
   * source computes right - need + have + 16 in size_t arithmetic; the
   * intermediate may wrap, but the result is the non-negative value below.
   */
  function PlanOf(have: nat, need: nat, right: Option<nat>): (plan: Plan)
    ensures plan == Move <==> have < need && (right.None? || have + FREE_HDR + right.value < need)
    ensures need <= have ==> plan == Keep || plan == GiveTail || plan == Carve
    ensures have < need ==> plan == Absorb || plan == TakeHead || plan == Move
    ensures plan == GiveTail || plan == Absorb || plan == TakeHead ==> right.Some?
    ensures plan == Keep <==> need == have || (right.None? && need < have <= need + SPLIT_LIMIT)
  {
    if need == have then Keep
    else if need < have then
      if right.Some? then GiveTail
      else if have - need <= SPLIT_LIMIT then Keep
      else Carve
    else if right.None? || right.value + FREE_HDR < need - have then Move
    else if right.value + have + FREE_HDR - need <= SPLIT_LIMIT then Absorb
    else TakeHead
  }

  /**
   * The size the block's header records after an in-place path: it always
   * holds need bytes, and never more than SPLIT_LIMIT bytes beyond them.
   */
  function SizeAfter(have: nat, need: nat, right: Option<nat>): (r: nat)
    requires PlanOf(have, need, right) != Move
    ensures need <= r <= need + SPLIT_LIMIT
    ensures r == have <==> PlanOf(have, need, right) == Keep
  {
    match PlanOf(have, need, right)
    case Keep => have
    case Absorb => have + FREE_HDR + right.value
    case _ => need
  }

  /** The size of the block right after the block o, if that block is free. */
  function RightOf(h: Headers, o: nat): (r: Option<nat>)
    requires o in h.size
    ensures r.Some? <==> End(o, h.size) in h.free && End(o, h.size) in h.size
  {
    var c := End(o, h.size);
    if c in h.free && c in h.size then Some(h.size[c]) else None
  }

  /**
   * search_block run for the block c: c is free exactly when the slot the
   * search stops at holds c.
   */
  lemma SearchFinds(free: seq<nat>, size: map<nat, nat>, c: nat)
    requires Listed(free, size)
    ensures Slot(free, c) < |free| && free[Slot(free, c)] == c <==> c in free
  {
    if c in free {
      var i :| 0 <= i < |free| && free[i] == c;
      SlotOfEntry(free, size, i);
    }
  }
}
