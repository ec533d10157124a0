/**
 * The free list: a singly linked chain of the free blocks, threaded through
 * their headers in ascending address order. It is modelled as the sequence
 * of the free blocks' offsets; a "slot" (a pointer to the link that leads to
 * a node) is the index k of that node: slot 0 is the list head, slot k > 0
 * is the `next` field of the (k-1)-th free block.
 */
module FreeList {
  import opened Block
  import opened Layout

  /** The free list and the size word of every block header. */
  datatype Headers = Headers(free: seq<nat>, size: map<nat, nat>)

  /** Every entry is a block header, and the entries are in strictly ascending address order. */
  ghost predicate Listed(free: seq<nat>, size: map<nat, nat>)
  {
    && (forall i :: 0 <= i < |free| ==> free[i] in size)
    && (forall i, j :: 0 <= i < j < |free| ==> free[i] < free[j])
  }

  /** Listed, and no free block touches the next one: touching free blocks are always fused. */
  ghost predicate Ordered(free: seq<nat>, size: map<nat, nat>)
  {
    && Listed(free, size)
    && (forall i, j :: 0 <= i && j == i + 1 && j < |free| ==> End(free[i], size) < free[j])
  }

  /** The slot search_block stops at: the first entry not below b, or the end of the list. */
  function Slot(free: seq<nat>, b: nat): (k: nat)
    ensures k <= |free|
    ensures forall i :: 0 <= i < k ==> free[i] < b
    ensures k < |free| ==> b <= free[k]
  {
    if |free| == 0 || b <= free[0] then 0 else 1 + Slot(free[1..], b)
  }

  /** k is where search_block stops for b: every entry before k lies below b, and the entry at k (if any) does not. */
  ghost predicate IsSlot(free: seq<nat>, b: nat, k: nat)
  {
    && k <= |free|
    && (forall i :: 0 <= i < k ==> free[i] < b)
    && (k < |free| ==> b <= free[k])
  }

  /** In a sorted list, the slot of b has every later entry at or above b. */
  lemma SlotSplits(free: seq<nat>, size: map<nat, nat>, b: nat)
    requires Listed(free, size)
    ensures forall i :: Slot(free, b) <= i < |free| ==> b <= free[i]
  {
    var k := Slot(free, b);
    forall i | k < i < |free|
      ensures b <= free[i]
    {
      assert free[k] < free[i];
    }
  }

  /** The slot of an entry is the entry's own index. */
  lemma SlotOfEntry(free: seq<nat>, size: map<nat, nat>, i: nat)
    requires Listed(free, size) && i < |free|
    ensures Slot(free, free[i]) == i
  {
  }

  /** search_block: walks from the head while the linked block lies below b. */
  method SearchBlock(free: seq<nat>, b: nat) returns (k: nat)
    ensures k <= |free|
    ensures forall i :: 0 <= i < k ==> free[i] < b
    ensures k < |free| ==> b <= free[k]
    ensures k == Slot(free, b)
  {
    k := 0;
    while k < |free| && free[k] < b
      invariant k <= |free|
      invariant forall i :: 0 <= i < k ==> free[i] < b
      invariant Slot(free, b) == k + Slot(free[k..], b)
    {
      assert free[k..][1..] == free[k + 1..];
      k := k + 1;
    }
  }

  /** remove_block: unlinks the node at slot k if it is b; otherwise the list is unchanged. */
  function Remove(free: seq<nat>, b: nat, k: nat): seq<nat>
    requires k <= |free|
  {
    if k < |free| && free[k] == b then RemoveAt(free, k) else free
  }

  /** remove_block takes out exactly one occurrence of b when it finds b at the slot, and nothing otherwise. */
  lemma RemoveTakesOne(free: seq<nat>, b: nat, k: nat)
    requires k <= |free|
    ensures multiset(Remove(free, b, k)) == if k < |free| && free[k] == b then multiset(free) - multiset{b} else multiset(free)
  {
    if k < |free| && free[k] == b {
      assert free == free[..k] + [b] + free[k + 1..];
    }
  }

  /** s with x inserted at index k. */
  function InsertAt(s: seq<nat>, k: nat, x: nat): (r: seq<nat>)
    requires k <= |s|
    ensures |r| == |s| + 1
    ensures forall m :: 0 <= m < |r| ==> r[m] == if m < k then s[m] else if m == k then x else s[m - 1]
  {
    s[..k] + [x] + s[k..]
  }

  /** s with the element at index k removed. */
  function RemoveAt(s: seq<nat>, k: nat): (r: seq<nat>)
    requires k < |s|
    ensures |r| == |s| - 1
    ensures forall m :: 0 <= m < |r| ==> r[m] == if m < k then s[m] else s[m + 1]
  {
    s[..k] + s[k + 1..]
  }

  /** Whether the block b ends exactly where the block at slot k of the list starts. */
  predicate TouchesRight(h: Headers, b: nat, k: nat)
    requires b in h.size
  {
    k < |h.free| && End(b, h.size) == h.free[k]
  }

  /**
   * insert_block: links the block b in at its slot k. If b ends where the
   * block at the slot starts, b absorbs it and takes its place in the list;
   * then, if the block before the slot ends where b starts, that block
   * absorbs b.
   */
  function Insert(h: Headers, b: nat, k: nat): (r: Headers)
    requires Listed(h.free, h.size) && b in h.size && b !in h.free && IsSlot(h.free, b, k)
    ensures r.size.Keys <= h.size.Keys
    ensures forall x :: x in h.size && x !in r.size ==> x == b || x in h.free
    ensures forall x :: x in r.size && x != b && x !in h.free ==> r.size[x] == h.size[x]
  {
    if TouchesRight(h, b, k) then
      var size1 := Fused(h.size, b, h.free[k]);
      if k > 0 && End(h.free[k - 1], size1) == b then
        Headers(RemoveAt(h.free, k), Fused(size1, h.free[k - 1], b))
      else
        Headers(h.free[k := b], size1)
    else if k > 0 && End(h.free[k - 1], h.size) == b then
      Headers(h.free, Fused(h.size, h.free[k - 1], b))
    else
      Headers(InsertAt(h.free, k, b), h.size)
  }

  lemma InsertAtMembers(s: seq<nat>, k: nat, x: nat)
    requires k <= |s|
    ensures forall y :: y in InsertAt(s, k, x) <==> y == x || y in s
  {
    var r := InsertAt(s, k, x);
    assert r[k] == x;
    forall y | y in s
      ensures y in r
    {
      var i :| 0 <= i < |s| && s[i] == y;
      assert r[if i < k then i else i + 1] == y;
    }
  }

  lemma RemoveAtMembers(s: seq<nat>, size: map<nat, nat>, k: nat)
    requires Listed(s, size) && k < |s|
    ensures forall y :: y in RemoveAt(s, k) <==> y in s && y != s[k]
  {
    var r := RemoveAt(s, k);
    forall y | y in s && y != s[k]
      ensures y in r
    {
      var i :| 0 <= i < |s| && s[i] == y;
      assert r[if i < k then i else i - 1] == y;
    }
  }

  lemma ReplaceMembers(s: seq<nat>, size: map<nat, nat>, k: nat, x: nat)
    requires Listed(s, size) && k < |s|
    ensures forall y :: y in s[k := x] <==> y == x || (y in s && y != s[k])
  {
    var r := s[k := x];
    assert r[k] == x;
    forall y | y in s && y != s[k]
      ensures y in r
    {
      var i :| 0 <= i < |s| && s[i] == y;
      assert r[i] == y;
    }
  }

  /** After an insertion the free blocks are the old ones plus b, less the blocks that were absorbed. */
  lemma InsertMembers(h: Headers, b: nat)
    requires Listed(h.free, h.size) && b in h.size && b !in h.free
    ensures var r := Insert(h, b, Slot(h.free, b));
            forall x :: x in r.free <==> x in r.size && (x == b || x in h.free)
  {
    var k := Slot(h.free, b);
    var r := Insert(h, b, k);
    if TouchesRight(h, b, k) {
      if r.free == RemoveAt(h.free, k) {
        RemoveAtMembers(h.free, h.size, k);
      } else {
        ReplaceMembers(h.free, h.size, k, b);
      }
    } else if r.free != h.free {
      InsertAtMembers(h.free, k, b);
    }
  }

  /** The block before slot k lies wholly before b and the block at slot k wholly after it. */
  lemma Neighbours(h: Headers, total: nat, b: nat, k: nat)
    requires Listed(h.free, h.size) && Tiles(h.size, total) && b in h.size && b !in h.free
    requires IsSlot(h.free, b, k)
    ensures k > 0 ==> End(h.free[k - 1], h.size) <= b
    ensures k < |h.free| ==> End(b, h.size) <= h.free[k]
  {
    if k < |h.free| {
      assert h.free[k] != b;
    }
  }

  /**
   * Replacing the entry at index k by x, where only the sizes of that entry
   * and of x may differ, keeps the list ordered when x sits apart from both
   * neighbours.
   */
  lemma ReplaceOrdered(free: seq<nat>, size: map<nat, nat>, size': map<nat, nat>, k: nat, x: nat)
    requires Ordered(free, size) && k < |free| && x in size'
    requires forall i :: 0 <= i < |free| && i != k ==> free[i] in size' && size'[free[i]] == size[free[i]]
    requires k > 0 ==> End(free[k - 1], size) < x
    requires k + 1 < |free| ==> End(x, size') < free[k + 1]
    ensures Ordered(free[k := x], size')
  {
    var r := free[k := x];
    forall i, j | 0 <= i < j < |r|
      ensures r[i] < r[j]
    {
      if i < k && j > k {
        assert free[i] <= free[k - 1] && free[k + 1] <= free[j];
      } else if i == k && j > k {
        assert free[k + 1] <= free[j];
      } else if j == k && i < k {
        assert free[i] <= free[k - 1];
      }
    }
    forall i, j | 0 <= i && j == i + 1 && j < |r|
      ensures End(r[i], size') < r[j]
    {
      if i != k && j != k {
        assert End(free[i], size) < free[j];
      }
    }
  }

  /**
   * Changing the size of the entry at index k keeps the list ordered when
   * the entry still ends before the next one.
   */
  lemma ResizeOrdered(free: seq<nat>, size: map<nat, nat>, size': map<nat, nat>, k: nat)
    requires Ordered(free, size) && k < |free| && free[k] in size'
    requires forall i :: 0 <= i < |free| && i != k ==> free[i] in size' && size'[free[i]] == size[free[i]]
    requires k + 1 < |free| ==> End(free[k], size') < free[k + 1]
    ensures Ordered(free, size')
  {
    forall i, j | 0 <= i && j == i + 1 && j < |free|
      ensures End(free[i], size') < free[j]
    {
      if i != k {
        assert End(free[i], size) < free[j];
      }
    }
  }

  /**
   * Inserting x at index k, where only the size of x may be new, keeps the
   * list ordered when x sits apart from both neighbours.
   */
  lemma InsertAtAscending(free: seq<nat>, k: nat, x: nat)
    requires k <= |free|
    requires forall i, j :: 0 <= i < j < |free| ==> free[i] < free[j]
    requires k > 0 ==> free[k - 1] < x
    requires k < |free| ==> x < free[k]
    ensures var r := InsertAt(free, k, x);
            forall i, j :: 0 <= i < j < |r| ==> r[i] < r[j]
  {
    var r := InsertAt(free, k, x);
    forall i, j | 0 <= i < j < |r|
      ensures r[i] < r[j]
    {
      if i < k && j > k {
        assert free[i] <= free[k - 1] && free[k] <= free[j - 1];
      } else if i == k && j > k {
        assert free[k] <= free[j - 1];
      } else if j == k && i < k {
        assert free[i] <= free[k - 1];
      } else if i > k {
        assert free[i - 1] < free[j - 1];
      }
    }
  }

  lemma InsertAtOrdered(free: seq<nat>, size: map<nat, nat>, size': map<nat, nat>, k: nat, x: nat)
    requires Ordered(free, size) && k <= |free| && x in size'
    requires forall i :: 0 <= i < |free| ==> free[i] in size' && size'[free[i]] == size[free[i]]
    requires k > 0 ==> End(free[k - 1], size) < x
    requires k < |free| ==> End(x, size') < free[k]
    ensures Ordered(InsertAt(free, k, x), size')
  {
    var r := InsertAt(free, k, x);
    InsertAtAscending(free, k, x);
    forall i, j | 0 <= i && j == i + 1 && j < |r|
      ensures End(r[i], size') < r[j]
    {
      if j < k {
        assert End(free[i], size) < free[j];
      } else if i > k {
        assert End(free[i - 1], size) < free[j - 1];
      }
    }
  }

  /**
   * Removing the entry at index k, where only the size of the entry before
   * it may change, keeps the list ordered when that entry stays apart from
   * the one after k.
   */
  lemma RemoveAtOrdered(free: seq<nat>, size: map<nat, nat>, size': map<nat, nat>, k: nat)
    requires Ordered(free, size) && k < |free|
    requires forall i :: 0 <= i < |free| && i != k && i + 1 != k ==> free[i] in size' && size'[free[i]] == size[free[i]]
    requires k > 0 ==> free[k - 1] in size'
    requires k > 0 && k + 1 < |free| ==> End(free[k - 1], size') < free[k + 1]
    ensures Ordered(RemoveAt(free, k), size')
  {
    var r := RemoveAt(free, k);
    forall i | 0 <= i < |r|
      ensures r[i] in size'
    {
      if i + 1 != k {
        assert free[if i < k then i else i + 1] in size';
      }
    }
    forall i, j | 0 <= i < j < |r|
      ensures r[i] < r[j]
    {
      assert free[if i < k then i else i + 1] < free[if j < k then j else j + 1];
    }
    forall i, j | 0 <= i && j == i + 1 && j < |r|
      ensures End(r[i], size') < r[j]
    {
      if j < k {
        assert End(free[i], size) < free[j];
      } else if i >= k {
        assert End(free[i + 1], size) < free[j + 1];
      }
    }
  }

  lemma InsertPlainOrdered(h: Headers, total: nat, b: nat, k: nat)
    requires Ordered(h.free, h.size) && Tiles(h.size, total) && b in h.size && b !in h.free
    requires IsSlot(h.free, b, k)
    requires !TouchesRight(h, b, k) && !(k > 0 && End(h.free[k - 1], h.size) == b)
    ensures Ordered(Insert(h, b, k).free, Insert(h, b, k).size) && Tiles(Insert(h, b, k).size, total)
  {
    Neighbours(h, total, b, k);
    InsertAtOrdered(h.free, h.size, h.size, k, b);
    InsertAlone(h, b, k);
  }

  lemma InsertRightOrdered(h: Headers, total: nat, b: nat, k: nat, size1: map<nat, nat>)
    requires Ordered(h.free, h.size) && Tiles(h.size, total) && b in h.size && b !in h.free
    requires IsSlot(h.free, b, k)
    requires TouchesRight(h, b, k) && !(k > 0 && End(h.free[k - 1], h.size) == b)
    requires size1 == Fused(h.size, b, h.free[k])
    ensures Ordered(Insert(h, b, k).free, Insert(h, b, k).size) && Tiles(Insert(h, b, k).size, total)
  {
    InsertRightOnly(h, b, k);
    var c := h.free[k];
    Neighbours(h, total, b, k);
    FuseTiles(h.size, total, b);
    assert End(b, size1) == End(c, h.size);
    forall i | 0 <= i < |h.free| && i != k
      ensures h.free[i] in size1 && size1[h.free[i]] == h.size[h.free[i]]
    {
      assert h.free[i] != b && h.free[i] != c;
    }
    if k + 1 < |h.free| {
      assert End(c, h.size) < h.free[k + 1];
    }
    ReplaceOrdered(h.free, h.size, size1, k, b);
  }

  lemma InsertLeftOrdered(h: Headers, total: nat, b: nat, k: nat, size1: map<nat, nat>)
    requires Ordered(h.free, h.size) && Tiles(h.size, total) && b in h.size && b !in h.free
    requires IsSlot(h.free, b, k)
    requires !TouchesRight(h, b, k) && k > 0 && End(h.free[k - 1], h.size) == b
    requires size1 == Fused(h.size, h.free[k - 1], b)
    ensures Ordered(Insert(h, b, k).free, Insert(h, b, k).size) && Tiles(Insert(h, b, k).size, total)
  {
    InsertLeftOnly(h, b, k);
    var p := h.free[k - 1];
    Neighbours(h, total, b, k);
    FuseTiles(h.size, total, p);
    assert End(p, size1) == End(b, h.size);
    forall i | 0 <= i < |h.free| && i != k - 1
      ensures h.free[i] in size1 && size1[h.free[i]] == h.size[h.free[i]]
    {
      assert h.free[i] != b && h.free[i] != p;
    }
    ResizeOrdered(h.free, h.size, size1, k - 1);
  }

  lemma InsertBothOrdered(h: Headers, total: nat, b: nat, k: nat, size2: map<nat, nat>)
    requires Ordered(h.free, h.size) && Tiles(h.size, total) && b in h.size && b !in h.free
    requires IsSlot(h.free, b, k)
    requires TouchesRight(h, b, k) && k > 0 && End(h.free[k - 1], Fused(h.size, b, h.free[k])) == b
    requires size2 == Fused(Fused(h.size, b, h.free[k]), h.free[k - 1], b)
    ensures Ordered(Insert(h, b, k).free, Insert(h, b, k).size) && Tiles(Insert(h, b, k).size, total)
  {
    InsertBoth(h, b, k);
    var p := h.free[k - 1];
    var c := h.free[k];
    var size1 := Fused(h.size, b, c);
    FuseTiles(h.size, total, b);
    assert End(b, size1) == End(c, h.size);
    FuseTiles(size1, total, p);
    assert End(p, size2) == End(c, h.size);
    forall i | 0 <= i < |h.free| && i != k && i + 1 != k
      ensures h.free[i] in size2 && size2[h.free[i]] == h.size[h.free[i]]
    {
      assert h.free[i] != b && h.free[i] != c && h.free[i] != p;
    }
    if k + 1 < |h.free| {
      assert End(c, h.size) < h.free[k + 1];
    }
    RemoveAtOrdered(h.free, h.size, size2, k);
  }

  /**
   * Inserting a block that is not free keeps the list sorted with no two
   * free blocks touching, and keeps the region tiled.
   */
  lemma InsertKeepsOrder(h: Headers, total: nat, b: nat)
    requires Ordered(h.free, h.size) && Tiles(h.size, total) && b in h.size && b !in h.free
    ensures Ordered(Insert(h, b, Slot(h.free, b)).free, Insert(h, b, Slot(h.free, b)).size)
    ensures Tiles(Insert(h, b, Slot(h.free, b)).size, total)
  {
    var k := Slot(h.free, b);
    assert IsSlot(h.free, b, k);
    if TouchesRight(h, b, k) {
      InsertTouchingOrdered(h, total, b, k);
    } else {
      InsertApartOrdered(h, total, b, k);
    }
  }

  /** Insertion at slot k of a block that ends where the next free block starts. */
  lemma InsertTouchingOrdered(h: Headers, total: nat, b: nat, k: nat)
    requires Ordered(h.free, h.size) && Tiles(h.size, total) && b in h.size && b !in h.free
    requires IsSlot(h.free, b, k) && TouchesRight(h, b, k)
    ensures Ordered(Insert(h, b, k).free, Insert(h, b, k).size) && Tiles(Insert(h, b, k).size, total)
  {
    var size1 := Fused(h.size, b, h.free[k]);
    if k > 0 && End(h.free[k - 1], size1) == b {
      var size2 := Fused(size1, h.free[k - 1], b);
      InsertBothOrdered(h, total, b, k, size2);
    } else {
      assert k > 0 ==> End(h.free[k - 1], h.size) == End(h.free[k - 1], size1);
      InsertRightOrdered(h, total, b, k, size1);
    }
  }

  /** Insertion at slot k of a block that does not touch the next free block. */
  lemma InsertApartOrdered(h: Headers, total: nat, b: nat, k: nat)
    requires Ordered(h.free, h.size) && Tiles(h.size, total) && b in h.size && b !in h.free
    requires IsSlot(h.free, b, k) && !TouchesRight(h, b, k)
    ensures Ordered(Insert(h, b, k).free, Insert(h, b, k).size) && Tiles(Insert(h, b, k).size, total)
  {
    if k > 0 && End(h.free[k - 1], h.size) == b {
      var size1 := Fused(h.size, h.free[k - 1], b);
      InsertLeftOrdered(h, total, b, k, size1);
    } else {
      InsertPlainOrdered(h, total, b, k);
    }
  }

  /** Slot is characterised by its two properties alone. */
  lemma SlotIs(free: seq<nat>, b: nat, k: nat)
    requires IsSlot(free, b, k)
    ensures Slot(free, b) == k
  {
  }

  /**
   * What mem_alloc does to the headers when it takes need bytes from the
   * free block at index k: the block leaves the list whole when at most
   * SPLIT_LIMIT bytes would be left over; otherwise it keeps need bytes and
   * a free block holding the rest takes its place in the list.
   */
  function Allocated(h: Headers, k: nat, need: nat): Headers
    requires k < |h.free| && h.free[k] in h.size && need <= h.size[h.free[k]]
  {
    var b := h.free[k];
    if h.size[b] - need <= SPLIT_LIMIT then
      Headers(RemoveAt(h.free, k), h.size)
    else
      Headers(h.free[k := b + ALLOC_HDR + need], Carved(h.size, b, need))
  }

  /** The block a successful mem_alloc hands out, and whether it was split. */
  lemma AllocatedBlock(h: Headers, total: nat, k: nat, need: nat)
    requires Ordered(h.free, h.size) && Tiles(h.size, total)
    requires k < |h.free| && need <= h.size[h.free[k]]
    ensures var b := h.free[k]; var r := Allocated(h, k, need);
            && b in r.size && b !in r.free
            && need <= r.size[b]
            && (h.size[b] - need <= SPLIT_LIMIT ==> r.size[b] == h.size[b])
            && (h.size[b] - need > SPLIT_LIMIT ==> r.size[b] == need)
            && (forall x :: x in h.size ==> x in r.size)
            && (forall x :: x in r.free <==> x in r.size && x != b && (x in h.free || x !in h.size))
  {
    var b, r := h.free[k], Allocated(h, k, need);
    if h.size[b] - need <= SPLIT_LIMIT {
      RemoveAtMembers(h.free, h.size, k);
    } else {
      var c := b + ALLOC_HDR + need;
      NoInnerHeader(h.size, total, b, c);
      ReplaceMembers(h.free, h.size, k, c);
    }
  }

  lemma AllocSplitOrder(h: Headers, total: nat, k: nat, need: nat)
    requires Ordered(h.free, h.size) && Tiles(h.size, total)
    requires k < |h.free| && need + FREE_HDR <= h.size[h.free[k]]
    ensures var b := h.free[k];
            var size' := Carved(h.size, b, need);
            Ordered(h.free[k := b + ALLOC_HDR + need], size') && Tiles(size', total)
  {
    var b := h.free[k];
    var c := b + ALLOC_HDR + need;
    var size' := Carved(h.size, b, need);
    SplitTiles(h.size, total, b, need);
    NoInnerHeader(h.size, total, b, c);
    assert End(c, size') == End(b, h.size);
    forall i | 0 <= i < |h.free| && i != k
      ensures h.free[i] in size' && size'[h.free[i]] == h.size[h.free[i]]
    {
      assert h.free[i] != b && h.free[i] != c;
    }
    if k > 0 {
      assert End(h.free[k - 1], h.size) < b;
    }
    if k + 1 < |h.free| {
      assert End(b, h.size) < h.free[k + 1];
    }
    ReplaceOrdered(h.free, h.size, size', k, c);
  }

  /** mem_alloc keeps the free list sorted with no two free blocks touching, and the region tiled. */
  lemma AllocKeepsOrder(h: Headers, total: nat, k: nat, need: nat)
    requires Ordered(h.free, h.size) && Tiles(h.size, total)
    requires k < |h.free| && need <= h.size[h.free[k]]
    ensures var r := Allocated(h, k, need);
            Ordered(r.free, r.size) && Tiles(r.size, total)
  {
    var b := h.free[k];
    if h.size[b] - need <= SPLIT_LIMIT {
      RemoveAtOrdered(h.free, h.size, h.size, k);
      assert Allocated(h, k, need) == Headers(RemoveAt(h.free, k), h.size);
    } else {
      AllocSplitOrder(h, total, k, need);
      assert Allocated(h, k, need) == Headers(h.free[k := b + ALLOC_HDR + need], Carved(h.size, b, need));
    }
  }

  lemma InsertAtRemoveAt(s: seq<nat>, k: nat)
    requires k < |s|
    ensures InsertAt(RemoveAt(s, k), k, s[k]) == s
  {
  }

  lemma FreeUndoesWhole(h: Headers, k: nat, need: nat)
    requires Ordered(h.free, h.size) && k < |h.free|
    requires need <= h.size[h.free[k]] && h.size[h.free[k]] - need <= SPLIT_LIMIT
    ensures var b := h.free[k]; var r := Allocated(h, k, need);
            Listed(r.free, r.size) && b in r.size && b !in r.free
            && Insert(r, b, Slot(r.free, b)) == h
  {
    var b, r := h.free[k], Allocated(h, k, need);
    assert r == Headers(RemoveAt(h.free, k), h.size);
    RemoveAtOrdered(h.free, h.size, h.size, k);
    RemoveAtMembers(h.free, h.size, k);
    SlotIs(r.free, b, k);
    if k > 0 {
      assert End(h.free[k - 1], h.size) < b;
    }
    if k < |r.free| {
      assert End(b, h.size) < h.free[k + 1];
    }
    InsertAtRemoveAt(h.free, k);
  }

  /** insert_block when b touches only the block at its slot. */
  lemma InsertRightOnly(h: Headers, b: nat, k: nat)
    requires Listed(h.free, h.size) && b in h.size && b !in h.free && IsSlot(h.free, b, k)
    requires TouchesRight(h, b, k) && (k > 0 ==> End(h.free[k - 1], h.size) != b)
    ensures Insert(h, b, k) == Headers(h.free[k := b], Fused(h.size, b, h.free[k]))
  {
    if k > 0 {
      assert End(h.free[k - 1], Fused(h.size, b, h.free[k])) == End(h.free[k - 1], h.size);
    }
  }

  /** insert_block when b touches only the block before its slot. */
  lemma InsertLeftOnly(h: Headers, b: nat, k: nat)
    requires Listed(h.free, h.size) && b in h.size && b !in h.free && IsSlot(h.free, b, k)
    requires !TouchesRight(h, b, k) && k > 0 && End(h.free[k - 1], h.size) == b
    ensures Insert(h, b, k) == Headers(h.free, Fused(h.size, h.free[k - 1], b))
  {
  }

  /** insert_block when b touches the blocks on both sides of its slot. */
  lemma InsertBoth(h: Headers, b: nat, k: nat)
    requires Listed(h.free, h.size) && b in h.size && b !in h.free && IsSlot(h.free, b, k)
    requires TouchesRight(h, b, k) && k > 0 && End(h.free[k - 1], Fused(h.size, b, h.free[k])) == b
    ensures Insert(h, b, k) == Headers(RemoveAt(h.free, k), Fused(Fused(h.size, b, h.free[k]), h.free[k - 1], b))
  {
  }

  /** insert_block when b touches neither neighbour. */
  lemma InsertAlone(h: Headers, b: nat, k: nat)
    requires Listed(h.free, h.size) && b in h.size && b !in h.free && IsSlot(h.free, b, k)
    requires !TouchesRight(h, b, k) && (k > 0 ==> End(h.free[k - 1], h.size) != b)
    ensures Insert(h, b, k) == Headers(InsertAt(h.free, k, b), h.size)
  {
  }

  /** Fusing back the block carved off b restores the sizes. */
  lemma FuseUndoesCarve(size: map<nat, nat>, total: nat, b: nat, a: nat)
    requires Tiles(size, total) && b in size && a + FREE_HDR <= size[b]
    ensures Fused(Carved(size, b, a), b, b + ALLOC_HDR + a) == size
  {
    NoInnerHeader(size, total, b, b + ALLOC_HDR + a);
  }

  lemma SplitMembers(h: Headers, total: nat, k: nat, need: nat)
    requires Ordered(h.free, h.size) && Tiles(h.size, total)
    requires k < |h.free| && need + FREE_HDR <= h.size[h.free[k]]
    ensures var b := h.free[k];
            var r := Headers(h.free[k := b + ALLOC_HDR + need], Carved(h.size, b, need));
            && Listed(r.free, r.size) && b in r.size && b !in r.free
            && Slot(r.free, b) == k
            && (k > 0 ==> End(r.free[k - 1], r.size) != b)
  {
    var b := h.free[k];
    var c := b + ALLOC_HDR + need;
    var r := Headers(h.free[k := c], Carved(h.size, b, need));
    AllocSplitOrder(h, total, k, need);
    NoInnerHeader(h.size, total, b, c);
    ReplaceMembers(h.free, h.size, k, c);
    SlotIs(r.free, b, k);
    if k > 0 {
      assert End(h.free[k - 1], h.size) < b;
      assert h.free[k - 1] != b && h.free[k - 1] != c;
    }
  }

  lemma FreeUndoesSplit(h: Headers, total: nat, k: nat, need: nat)
    requires Ordered(h.free, h.size) && Tiles(h.size, total)
    requires k < |h.free| && need <= h.size[h.free[k]] && h.size[h.free[k]] - need > SPLIT_LIMIT
    ensures var b := h.free[k]; var r := Allocated(h, k, need);
            Listed(r.free, r.size) && b in r.size && b !in r.free
            && Insert(r, b, Slot(r.free, b)) == h
  {
    var b := h.free[k];
    var c := b + ALLOC_HDR + need;
    var r := Allocated(h, k, need);
    assert r == Headers(h.free[k := c], Carved(h.size, b, need));
    SplitMembers(h, total, k, need);
    InsertRightOnly(r, b, k);
    FuseUndoesCarve(h.size, total, b, need);
    assert r.free[k := b] == h.free;
  }

  /**
   * Freeing the block mem_alloc just handed out gives back exactly the free
   * list and headers there were before the allocation.
   */
  lemma FreeUndoesAlloc(h: Headers, total: nat, k: nat, need: nat)
    requires Ordered(h.free, h.size) && Tiles(h.size, total)
    requires k < |h.free| && need <= h.size[h.free[k]]
    ensures var b := h.free[k]; var r := Allocated(h, k, need);
            Listed(r.free, r.size) && b in r.size && b !in r.free
            && Insert(r, b, Slot(r.free, b)) == h
  {
    if h.size[h.free[k]] - need <= SPLIT_LIMIT {
      FreeUndoesWhole(h, k, need);
    } else {
      FreeUndoesSplit(h, total, k, need);
    }
  }

  /**
   * How the headers relate after an operation that leaves b allocated: only
   * free blocks lose their headers, every new header is a free block, and
   * every other allocated block keeps its size.
   */
  ghost predicate Reshaped(h: Headers, r: Headers, b: nat)
  {
    && b in r.size && b !in r.free
    && (forall x :: x in h.size && x !in r.size ==> x in h.free)
    && (forall x :: x in r.free <==> x in r.size && x != b && (x in h.free || x !in h.size))
    && (forall x :: x in r.size && x in h.size && x != b && x !in h.free ==> r.size[x] == h.size[x])
  }

  /** mem_alloc leaves the block it hands out allocated and touches no other allocated block. */
  lemma AllocReshapes(h: Headers, total: nat, k: nat, need: nat)
    requires Ordered(h.free, h.size) && Tiles(h.size, total)
    requires k < |h.free| && need <= h.size[h.free[k]]
    ensures Reshaped(h, Allocated(h, k, need), h.free[k])
  {
    AllocatedBlock(h, total, k, need);
    var b := h.free[k];
    if h.size[b] - need > SPLIT_LIMIT {
      NoInnerHeader(h.size, total, b, b + ALLOC_HDR + need);
    }
  }

  /**
   * What mem_realloc does when the free block at index k starts right where
   * the allocated block b ends and b is to hold a bytes: the boundary moves,
   * and a free block ending where the right block ended takes its place in
   * the list (a shrink that gives the tail to the right block, or a growth
   * that takes the head of it).
   */
  function Shifted(h: Headers, k: nat, b: nat, a: nat): Headers
    requires k < |h.free| && b in h.size && h.free[k] in h.size && b != h.free[k]
    requires a <= h.size[b] + h.size[h.free[k]]
  {
    Headers(h.free[k := b + ALLOC_HDR + a], Carved(Fused(h.size, b, h.free[k]), b, a))
  }

  /**
   * What mem_realloc does when it shrinks the allocated block b to a bytes
   * and the block after it is not free: a new free block holding the tail
   * is linked in at slot k.
   */
  function CarvedOff(h: Headers, k: nat, b: nat, a: nat): Headers
    requires k <= |h.free| && b in h.size && a + FREE_HDR <= h.size[b]
  {
    Headers(InsertAt(h.free, k, b + ALLOC_HDR + a), Carved(h.size, b, a))
  }

  /**
   * What mem_realloc does when the allocated block b absorbs the free block
   * at index k that starts right where b ends.
   */
  function Absorbed(h: Headers, k: nat, b: nat): Headers
    requires k < |h.free| && b in h.size && h.free[k] in h.size && b != h.free[k]
  {
    Headers(RemoveAt(h.free, k), Fused(h.size, b, h.free[k]))
  }

  /** An allocated block lies strictly between the free blocks around its slot. */
  lemma AllocatedBetween(h: Headers, total: nat, b: nat)
    requires Ordered(h.free, h.size) && Tiles(h.size, total) && b in h.size && b !in h.free
    ensures var k := Slot(h.free, b);
            && (forall i :: 0 <= i < k ==> End(h.free[i], h.size) <= b)
            && (forall i :: k <= i < |h.free| ==> End(b, h.size) <= h.free[i])
  {
    var k := Slot(h.free, b);
    SlotSplits(h.free, h.size, b);
    forall i | k <= i < |h.free|
      ensures End(b, h.size) <= h.free[i]
    {
      assert h.free[i] != b;
    }
  }

  /** The shift leaves every other free block as it was, between its neighbours. */
  lemma ShiftSpares(h: Headers, total: nat, k: nat, b: nat, a: nat, c': nat, size': map<nat, nat>)
    requires Ordered(h.free, h.size) && Tiles(h.size, total) && b in h.size && b !in h.free
    requires k < |h.free| && End(b, h.size) == h.free[k] && a <= h.size[b] + h.size[h.free[k]]
    requires c' == b + ALLOC_HDR + a && size' == Carved(Fused(h.size, b, h.free[k]), b, a)
    ensures c' in size'
    ensures forall i :: 0 <= i < |h.free| && i != k ==> h.free[i] in size' && size'[h.free[i]] == h.size[h.free[i]]
    ensures k > 0 ==> End(h.free[k - 1], h.size) < c'
    ensures k + 1 < |h.free| ==> End(c', size') < h.free[k + 1]
  {
    var c := h.free[k];
    ShiftTiles(h.size, total, b, a);
    AllocatedBetween(h, total, b);
    SlotOfEntry(h.free, h.size, k);
    SlotIs(h.free, b, k);
    assert End(c', size') == End(c, h.size);
    forall i | 0 <= i < |h.free| && i != k
      ensures h.free[i] in size' && size'[h.free[i]] == h.size[h.free[i]]
    {
      if i > k {
        assert End(c, h.size) < h.free[k + 1] <= h.free[i];
      }
    }
    if k + 1 < |h.free| {
      assert End(c, h.size) < h.free[k + 1];
    }
  }

  lemma ShiftOrdered(h: Headers, total: nat, k: nat, b: nat, a: nat)
    requires Ordered(h.free, h.size) && Tiles(h.size, total) && b in h.size && b !in h.free
    requires k < |h.free| && End(b, h.size) == h.free[k] && a <= h.size[b] + h.size[h.free[k]]
    ensures var r := Shifted(h, k, b, a);
            Ordered(r.free, r.size) && Tiles(r.size, total)
  {
    var c', size' := b + ALLOC_HDR + a, Carved(Fused(h.size, b, h.free[k]), b, a);
    ShiftTiles(h.size, total, b, a);
    ShiftSpares(h, total, k, b, a, c', size');
    ReplaceOrdered(h.free, h.size, size', k, c');
  }

  /** The shift keeps the list ordered, the region tiled, and b allocated. */
  lemma ShiftKeepsOrder(h: Headers, total: nat, k: nat, b: nat, a: nat)
    requires Ordered(h.free, h.size) && Tiles(h.size, total) && b in h.size && b !in h.free
    requires k < |h.free| && End(b, h.size) == h.free[k] && a <= h.size[b] + h.size[h.free[k]]
    ensures var r := Shifted(h, k, b, a);
            Ordered(r.free, r.size) && Tiles(r.size, total) && Reshaped(h, r, b)
  {
    var c := h.free[k];
    var c' := b + ALLOC_HDR + a;
    ShiftOrdered(h, total, k, b, a);
    ReplaceMembers(h.free, h.size, k, c');
    FuseTiles(h.size, total, b);
    NoInnerHeader(Fused(h.size, b, c), total, b, c');
    assert c' !in h.size || c' == c;
  }

  /** Carving off the tail keeps the list ordered, the region tiled, and b allocated. */
  lemma CarveKeepsOrder(h: Headers, total: nat, k: nat, b: nat, a: nat)
    requires Ordered(h.free, h.size) && Tiles(h.size, total) && b in h.size && b !in h.free
    requires a + FREE_HDR <= h.size[b] && End(b, h.size) !in h.free && IsSlot(h.free, b, k)
    ensures var r := CarvedOff(h, k, b, a);
            Ordered(r.free, r.size) && Tiles(r.size, total) && Reshaped(h, r, b)
  {
    var c := b + ALLOC_HDR + a;
    var size' := Carved(h.size, b, a);
    SplitTiles(h.size, total, b, a);
    AllocatedBetween(h, total, b);
    NoInnerHeader(h.size, total, b, c);
    assert End(c, size') == End(b, h.size);
    forall i | 0 <= i < |h.free|
      ensures h.free[i] in size' && size'[h.free[i]] == h.size[h.free[i]]
    {
      assert h.free[i] != b;
    }
    if k < |h.free| {
      assert End(b, h.size) != h.free[k];
    }
    InsertAtOrdered(h.free, h.size, size', k, c);
    InsertAtMembers(h.free, k, c);
  }

  /** Absorbing the right block keeps the list ordered, the region tiled, and b allocated. */
  lemma AbsorbKeepsOrder(h: Headers, total: nat, k: nat, b: nat)
    requires Ordered(h.free, h.size) && Tiles(h.size, total) && b in h.size && b !in h.free
    requires k < |h.free| && End(b, h.size) == h.free[k]
    ensures var r := Absorbed(h, k, b);
            Ordered(r.free, r.size) && Tiles(r.size, total) && Reshaped(h, r, b)
  {
    var c := h.free[k];
    var size' := Fused(h.size, b, c);
    FuseTiles(h.size, total, b);
    AllocatedBetween(h, total, b);
    SlotOfEntry(h.free, h.size, k);
    SlotIs(h.free, b, k);
    assert End(b, size') == End(c, h.size);
    forall i | 0 <= i < |h.free| && i != k
      ensures h.free[i] in size' && size'[h.free[i]] == h.size[h.free[i]]
    {
      assert h.free[i] != b;
    }
    if k > 0 && k + 1 < |h.free| {
      assert End(h.free[k - 1], h.size) <= b;
      assert End(c, h.size) < h.free[k + 1];
    }
    RemoveAtOrdered(h.free, h.size, size', k);
    RemoveAtMembers(h.free, h.size, k);
  }

  /** Removing the entry at k and inserting x at k replaces the entry. */
  lemma InsertAtRemoveAtUpdates(s: seq<nat>, k: nat, x: nat)
    requires k < |s|
    ensures InsertAt(RemoveAt(s, k), k, x) == s[k := x]
  {
  }

  /** The free list as the sequence of its blocks' size words, in list order. */
  function SizesOf(h: Headers): (r: seq<nat>)
    ensures |r| == |h.free|
    ensures forall i :: 0 <= i < |h.free| && h.free[i] in h.size ==> r[i] == h.size[h.free[i]]
  {
    seq(|h.free|, i requires 0 <= i < |h.free| => if h.free[i] in h.size then h.size[h.free[i]] else 0)
  }

  /** No block, free or allocated, is bigger than the region less one header. */
  lemma SizesBelowTotal(h: Headers, total: nat)
    requires Listed(h.free, h.size) && Tiles(h.size, total)
    ensures forall i :: 0 <= i < |h.free| ==> SizesOf(h)[i] + FREE_HDR <= total
  {
    forall i | 0 <= i < |h.free|
      ensures SizesOf(h)[i] + FREE_HDR <= total
    {
      Successor(h.size, total, h.free[i]);
    }
  }

  /**
   * Unlinking the entry at k and then inserting, at the same slot, a block c
   * that touches neither neighbour puts c where the entry was.
   */
  lemma ReplaceSteps(h: Headers, k: nat, size1: map<nat, nat>, c: nat)
    requires Ordered(h.free, h.size) && k < |h.free| && c in size1
    requires forall i :: 0 <= i < |h.free| && i != k ==>
               h.free[i] in size1 && size1[h.free[i]] == h.size[h.free[i]] && h.free[i] != c
    requires k > 0 ==> End(h.free[k - 1], h.size) < c
    requires k + 1 < |h.free| ==> End(c, size1) < h.free[k + 1]
    ensures var h1 := Headers(RemoveAt(h.free, k), size1);
            && Listed(h1.free, h1.size) && c !in h1.free && IsSlot(h1.free, c, k)
            && Insert(h1, c, k) == Headers(h.free[k := c], size1)
  {
    var h1 := Headers(RemoveAt(h.free, k), size1);
    if k > 0 && k + 1 < |h.free| {
      assert End(h.free[k - 1], size1) == End(h.free[k - 1], h.size) < c <= End(c, size1) < h.free[k + 1];
    }
    RemoveAtOrdered(h.free, h.size, size1, k);
    RemoveAtMembers(h.free, h.size, k);
    assert c !in h1.free;
    forall i | 0 <= i < k
      ensures h1.free[i] < c
    {
      assert h1.free[i] == h.free[i] <= h.free[k - 1];
    }
    if k < |h1.free| {
      assert h1.free[k] == h.free[k + 1] > End(c, size1) >= c;
    }
    assert IsSlot(h1.free, c, k);
    if k > 0 {
      assert End(h1.free[k - 1], size1) == End(h.free[k - 1], h.size) < c;
    }
    InsertAlone(h1, c, k);
    InsertAtRemoveAtUpdates(h.free, k, c);
  }

  /**
   * Inserting at slot k a block c that lies strictly between the entries
   * around k and touches neither adds c there.
   */
  lemma ApartSteps(h: Headers, k: nat, size1: map<nat, nat>, c: nat)
    requires Listed(h.free, h.size) && k <= |h.free| && c in size1
    requires forall i :: 0 <= i < |h.free| ==>
               h.free[i] in size1 && size1[h.free[i]] == h.size[h.free[i]] && h.free[i] != c
    requires k > 0 ==> End(h.free[k - 1], h.size) < c
    requires k < |h.free| ==> End(c, size1) < h.free[k]
    ensures var h1 := Headers(h.free, size1);
            && Listed(h1.free, h1.size) && c !in h1.free && IsSlot(h1.free, c, k)
            && Insert(h1, c, k) == Headers(InsertAt(h.free, k, c), size1)
  {
    var h1 := Headers(h.free, size1);
    forall i | 0 <= i < k
      ensures h.free[i] < c
    {
      assert h.free[i] <= h.free[k - 1];
    }
    InsertAlone(h1, c, k);
  }

  /**
   * mem_alloc's split: the header of the remainder c, written right after
   * the need bytes kept, lies apart from the neighbours of the chosen block,
   * so that insert_block at the block's slot links c in where the block was
   * (ReplaceSteps).
   */
  lemma SplitApart(h: Headers, total: nat, k: nat, need: nat, size1: map<nat, nat>)
    requires Ordered(h.free, h.size) && Tiles(h.size, total)
    requires k < |h.free| && need <= h.size[h.free[k]] && h.size[h.free[k]] - need > SPLIT_LIMIT
    requires var c := h.free[k] + ALLOC_HDR + need;
             && (forall x :: x in h.size && x != c ==> x in size1 && size1[x] == h.size[x])
             && c in size1 && size1[c] == h.size[h.free[k]] - need - ALLOC_HDR
    ensures var c := h.free[k] + ALLOC_HDR + need;
            && (forall i :: 0 <= i < |h.free| && i != k ==>
                  h.free[i] in size1 && size1[h.free[i]] == h.size[h.free[i]] && h.free[i] != c)
            && (k > 0 ==> End(h.free[k - 1], h.size) < c)
            && (k + 1 < |h.free| ==> End(c, size1) < h.free[k + 1])
  {
    var b := h.free[k];
    var c := b + ALLOC_HDR + need;
    NoInnerHeader(h.size, total, b, c);
    assert End(c, size1) == End(b, h.size);
    if k + 1 < |h.free| {
      assert End(b, h.size) < h.free[k + 1];
    }
  }

  /**
   * mem_alloc's split as the list sees it: with the chosen block unlinked and
   * the remainder's header written, insert_block at the block's slot puts
   * the remainder where the block was.
   */
  lemma SplitSteps(h: Headers, total: nat, k: nat, need: nat, h1: Headers)
    requires Ordered(h.free, h.size) && Tiles(h.size, total)
    requires k < |h.free| && need <= h.size[h.free[k]] && h.size[h.free[k]] - need > SPLIT_LIMIT
    requires h1.free == RemoveAt(h.free, k)
    requires h1.size == h.size[h.free[k] + ALLOC_HDR + need := h.size[h.free[k]] - need - ALLOC_HDR]
    ensures var c := h.free[k] + ALLOC_HDR + need;
            && Listed(h1.free, h1.size) && c in h1.size && c !in h1.free && IsSlot(h1.free, c, k)
            && Insert(h1, c, k) == Headers(h.free[k := c], h1.size)
  {
    SplitApart(h, total, k, need, h1.size);
    ReplaceSteps(h, k, h1.size, h.free[k] + ALLOC_HDR + need);
  }


  /**
   * mem_realloc's boundary move as the list sees it: with the right block c
   * unlinked and the header of c' (where b now ends) written, insert_block at
   * c's slot puts c' where c was.
   */
  lemma ShiftSteps(h: Headers, total: nat, k: nat, b: nat, a: nat, h1: Headers)
    requires Ordered(h.free, h.size) && Tiles(h.size, total) && b in h.size && b !in h.free
    requires k < |h.free| && End(b, h.size) == h.free[k] && a <= h.size[b] + h.size[h.free[k]]
    requires h1.free == RemoveAt(h.free, k)
    requires h1.size == (h.size - {h.free[k]})[b + ALLOC_HDR + a := h.size[h.free[k]] + h.size[b] - a]
    ensures var c' := b + ALLOC_HDR + a;
            && Listed(h1.free, h1.size) && c' in h1.size && c' !in h1.free && IsSlot(h1.free, c', k)
            && Insert(h1, c', k) == Headers(h.free[k := c'], h1.size)
  {
    var c, c' := h.free[k], b + ALLOC_HDR + a;
    assert End(c', h1.size) == End(c, h.size);
    ShiftApart(h, total, k, b, c', h1.size);
    ReplaceSteps(h, k, h1.size, c');
  }

  /**
   * mem_realloc's tail carve as the list sees it: with the header of the
   * tail c written, insert_block at the slot search_block found for b's
   * right neighbour (which is not free) links c in there.
   */
  lemma CarveSteps(h: Headers, total: nat, k: nat, b: nat, a: nat, h1: Headers)
    requires Ordered(h.free, h.size) && Tiles(h.size, total) && b in h.size && b !in h.free
    requires a + FREE_HDR <= h.size[b]
    requires IsSlot(h.free, End(b, h.size), k) && !(k < |h.free| && h.free[k] == End(b, h.size))
    requires h1 == Headers(h.free, h.size[b + ALLOC_HDR + a := h.size[b] - a - FREE_HDR])
    ensures var c := b + ALLOC_HDR + a;
            && Listed(h1.free, h1.size) && c in h1.size && c !in h1.free && IsSlot(h1.free, c, k)
            && Insert(h1, c, k) == Headers(InsertAt(h.free, k, c), h1.size)
  {
    var c := b + ALLOC_HDR + a;
    CarveSlot(h, total, k, b);
    CarveApart(h, total, k, b, a, h1.size);
    ApartSteps(h, k, h1.size, c);
  }

  /** ShiftSteps followed by the insertion and the header write of b gives Shifted. */
  lemma ShiftLinked(h: Headers, total: nat, k: nat, b: nat, a: nat, h1: Headers, c': nat)
    requires Ordered(h.free, h.size) && Tiles(h.size, total) && b in h.size && b !in h.free
    requires k < |h.free| && End(b, h.size) == h.free[k] && a <= h.size[b] + h.size[h.free[k]]
    requires h1.free == RemoveAt(h.free, k) && c' == b + ALLOC_HDR + a
    requires h1.size == (h.size - {h.free[k]})[c' := h.size[h.free[k]] + h.size[b] - a]
    ensures Listed(h1.free, h1.size) && c' in h1.size && c' !in h1.free && IsSlot(h1.free, c', k)
    ensures var h2 := Insert(h1, c', k);
            Headers(h2.free, h2.size[b := a]) == Shifted(h, k, b, a)
  {
    ShiftSteps(h, total, k, b, a, h1);
    ShiftedSize(h.size, b, h.free[k], a);
  }

  /** SplitSteps followed by the insertion and the header write of the taken block gives Allocated. */
  lemma SplitLinked(h: Headers, total: nat, k: nat, need: nat, h1: Headers, c: nat)
    requires Ordered(h.free, h.size) && Tiles(h.size, total)
    requires k < |h.free| && need <= h.size[h.free[k]] && h.size[h.free[k]] - need > SPLIT_LIMIT
    requires h1.free == RemoveAt(h.free, k) && c == h.free[k] + ALLOC_HDR + need
    requires h1.size == h.size[c := h.size[h.free[k]] - need - ALLOC_HDR]
    ensures Listed(h1.free, h1.size) && c in h1.size && c !in h1.free && IsSlot(h1.free, c, k)
    ensures var h2 := Insert(h1, c, k);
            Headers(h2.free, h2.size[h.free[k] := need]) == Allocated(h, k, need)
  {
    SplitSteps(h, total, k, need, h1);
  }

  /** CarveSteps followed by the insertion and the header write of b gives CarvedOff. */
  lemma CarveLinked(h: Headers, total: nat, k: nat, b: nat, a: nat, h1: Headers, c: nat)
    requires Ordered(h.free, h.size) && Tiles(h.size, total) && b in h.size && b !in h.free
    requires a + FREE_HDR <= h.size[b]
    requires IsSlot(h.free, End(b, h.size), k) && !(k < |h.free| && h.free[k] == End(b, h.size))
    requires c == b + ALLOC_HDR + a && h1 == Headers(h.free, h.size[c := h.size[b] - a - FREE_HDR])
    ensures Listed(h1.free, h1.size) && c in h1.size && c !in h1.free && IsSlot(h1.free, c, k)
    ensures var h2 := Insert(h1, c, k);
            Headers(h2.free, h2.size[b := a]) == CarvedOff(h, k, b, a)
  {
    CarveSteps(h, total, k, b, a, h1);
  }

  lemma ShiftedSize(size: map<nat, nat>, b: nat, c: nat, a: nat)
    requires b in size && c in size && b != c && a <= size[b] + size[c]
    ensures ((size - {c})[b + ALLOC_HDR + a := size[c] + size[b] - a])[b := a] == Carved(Fused(size, b, c), b, a)
  {
  }

  /** The neighbours of the block c' of ShiftSteps lie apart from it. */
  lemma ShiftApart(h: Headers, total: nat, k: nat, b: nat, c': nat, size1: map<nat, nat>)
    requires Ordered(h.free, h.size) && Tiles(h.size, total) && b in h.size && b !in h.free
    requires k < |h.free| && End(b, h.size) == h.free[k] && b < c'
    requires forall x :: x in h.size && x != h.free[k] && x != c' ==> x in size1 && size1[x] == h.size[x]
    requires c' in size1 && End(c', size1) == End(h.free[k], h.size)
    ensures forall i :: 0 <= i < |h.free| && i != k ==>
              h.free[i] in size1 && size1[h.free[i]] == h.size[h.free[i]] && h.free[i] != c'
    ensures k > 0 ==> End(h.free[k - 1], h.size) < c'
    ensures k + 1 < |h.free| ==> End(c', size1) < h.free[k + 1]
  {
    var c := h.free[k];
    forall i | 0 <= i < |h.free| && i != k
      ensures h.free[i] != c && h.free[i] != c' && h.free[i] in h.size
    {
      if i < k {
        assert h.free[i] < c;
      } else {
        assert End(c, h.size) < h.free[k + 1] <= h.free[i];
      }
    }
    if k > 0 {
      assert h.free[k - 1] < b;
      assert End(h.free[k - 1], h.size) <= b;
    }
  }

  /**
   * The tail carve of mem_realloc: the new free block c lies apart from the
   * free blocks around b's slot, so that insert_block links it in there
   * (ApartSteps).
   */
  lemma CarveApart(h: Headers, total: nat, k: nat, b: nat, a: nat, size1: map<nat, nat>)
    requires Ordered(h.free, h.size) && Tiles(h.size, total) && b in h.size && b !in h.free
    requires a + FREE_HDR <= h.size[b] && IsSlot(h.free, b, k)
    requires End(b, h.size) !in h.free
    requires var c := b + ALLOC_HDR + a;
             && (forall x :: x in h.size && x != c ==> x in size1 && size1[x] == h.size[x])
             && c in size1 && size1[c] == h.size[b] - a - ALLOC_HDR
    ensures var c := b + ALLOC_HDR + a;
            && (forall i :: 0 <= i < |h.free| ==>
                  h.free[i] in size1 && size1[h.free[i]] == h.size[h.free[i]] && h.free[i] != c)
            && (k > 0 ==> End(h.free[k - 1], h.size) < c)
            && (k < |h.free| ==> End(c, size1) < h.free[k])
  {
    var c := b + ALLOC_HDR + a;
    NoInnerHeader(h.size, total, b, c);
    assert End(c, size1) == End(b, h.size);
    if k > 0 {
      assert h.free[k - 1] < b;
    }
    if k < |h.free| {
      assert End(b, h.size) <= h.free[k];
    }
  }

  /** The free blocks below the end of the allocated block b all lie below b. */
  lemma BelowEnd(h: Headers, total: nat, k: nat, b: nat)
    requires Ordered(h.free, h.size) && Tiles(h.size, total) && b in h.size && b !in h.free
    requires IsSlot(h.free, End(b, h.size), k) && !(k < |h.free| && h.free[k] == End(b, h.size))
    ensures forall i :: 0 <= i < k ==> h.free[i] < b
    ensures End(b, h.size) !in h.free
  {
    forall i | 0 <= i < k
      ensures h.free[i] < b
    {
      assert h.free[i] != b;
    }
    forall i | k < i < |h.free|
      ensures End(b, h.size) < h.free[i]
    {
      assert h.free[k] < h.free[i];
    }
  }

  /** When the block after b is not free, b and its end have the same slot. */
  lemma CarveSlot(h: Headers, total: nat, k: nat, b: nat)
    requires Ordered(h.free, h.size) && Tiles(h.size, total) && b in h.size && b !in h.free
    requires IsSlot(h.free, End(b, h.size), k) && !(k < |h.free| && h.free[k] == End(b, h.size))
    ensures IsSlot(h.free, b, k) && End(b, h.size) !in h.free
    ensures k > 0 ==> End(h.free[k - 1], h.size) <= b
    ensures k < |h.free| ==> End(b, h.size) < h.free[k]
  {
    BelowEnd(h, total, k, b);
  }

  /** insert_block fusing both ways: the block before the slot grows by b and by the block at the slot. */
  lemma RoomBoth(h: Headers, b: nat, k: nat)
    requires Listed(h.free, h.size) && b in h.size && b !in h.free && IsSlot(h.free, b, k)
    requires TouchesRight(h, b, k) && k > 0 && End(h.free[k - 1], Fused(h.size, b, h.free[k])) == b
    ensures var r := Insert(h, b, k);
            k - 1 < |r.free| && r.free[k - 1] in r.size && h.size[b] <= r.size[r.free[k - 1]]
  {
  }

  /** insert_block fusing left only: the block before the slot grows by b. */
  lemma RoomLeft(h: Headers, b: nat, k: nat)
    requires Listed(h.free, h.size) && b in h.size && b !in h.free && IsSlot(h.free, b, k)
    requires !TouchesRight(h, b, k) && k > 0 && End(h.free[k - 1], h.size) == b
    ensures var r := Insert(h, b, k);
            k - 1 < |r.free| && r.free[k - 1] in r.size && h.size[b] <= r.size[r.free[k - 1]]
  {
  }

  /** insert_block fusing right only: b takes the slot and grows by the block that was there. */
  lemma RoomRight(h: Headers, b: nat, k: nat)
    requires Listed(h.free, h.size) && b in h.size && b !in h.free && IsSlot(h.free, b, k)
    requires TouchesRight(h, b, k) && !(k > 0 && End(h.free[k - 1], Fused(h.size, b, h.free[k])) == b)
    ensures var r := Insert(h, b, k);
            k < |r.free| && r.free[k] in r.size && h.size[b] <= r.size[r.free[k]]
  {
    if k > 0 {
      assert End(h.free[k - 1], Fused(h.size, b, h.free[k])) == End(h.free[k - 1], h.size);
    }
    InsertRightOnly(h, b, k);
  }

  /** insert_block fusing neither way: b itself is linked in at the slot. */
  lemma RoomAlone(h: Headers, b: nat, k: nat)
    requires Listed(h.free, h.size) && b in h.size && b !in h.free && IsSlot(h.free, b, k)
    requires !TouchesRight(h, b, k) && !(k > 0 && End(h.free[k - 1], h.size) == b)
    ensures var r := Insert(h, b, k);
            k < |r.free| && r.free[k] in r.size && h.size[b] <= r.size[r.free[k]]
  {
    InsertAlone(h, b, k);
    assert InsertAt(h.free, k, b)[k] == b;
  }

  /** After an insertion some free block is at least as big as the inserted block. */
  lemma InsertRoom(h: Headers, b: nat, k: nat)
    requires Listed(h.free, h.size) && b in h.size && b !in h.free && IsSlot(h.free, b, k)
    ensures var r := Insert(h, b, k);
            exists i :: 0 <= i < |r.free| && r.free[i] in r.size && h.size[b] <= r.size[r.free[i]]
  {
    var r := Insert(h, b, k);
    if TouchesRight(h, b, k) {
      if k > 0 && End(h.free[k - 1], Fused(h.size, b, h.free[k])) == b {
        RoomBoth(h, b, k);
        assert r.free[k - 1] in r.size && h.size[b] <= r.size[r.free[k - 1]];
      } else {
        RoomRight(h, b, k);
        assert r.free[k] in r.size && h.size[b] <= r.size[r.free[k]];
      }
    } else if k > 0 && End(h.free[k - 1], h.size) == b {
      RoomLeft(h, b, k);
      assert r.free[k - 1] in r.size && h.size[b] <= r.size[r.free[k - 1]];
    } else {
      RoomAlone(h, b, k);
      assert r.free[k] in r.size && h.size[b] <= r.size[r.free[k]];
    }
  }
}
