/**
 * How blocks tile the region. Every block, free or allocated, starts with a
 * 16-byte header whose first word is the block's size, and the next block
 * starts right after it. `size` maps the offset (from the region's base) of
 * every block header to that header's size word; its keys are all the
 * blocks there are.
 */
module Layout {
  import opened Block

  /** The offset just past the block whose header is at o. */
  function End(o: nat, size: map<nat, nat>): (e: nat)
    requires o in size
    ensures e >= o + FREE_HDR
  {
    o + FREE_HDR + size[o]
  }

  /**
   * The blocks cover [0, total) back to back: the first block starts at 0,
   * each block ends where another starts or at the end of the region, and no
   * two blocks overlap.
   */
  ghost predicate Tiles(size: map<nat, nat>, total: nat)
  {
    && 0 in size
    && (forall o {:trigger End(o, size)} :: o in size ==>
          End(o, size) == total || (End(o, size) < total && End(o, size) in size))
    && (forall o, p {:trigger End(o, size), p in size} :: o in size && p in size && o < p ==>
          End(o, size) <= p)
  }

  /** A block's successor: where the walk from o goes next. */
  lemma Successor(size: map<nat, nat>, total: nat, o: nat)
    requires Tiles(size, total) && o in size
    ensures End(o, size) == total || (End(o, size) < total && End(o, size) in size)
  {
  }

  /** No header lies strictly inside another block, nor past the region's end. */
  lemma NoInnerHeader(size: map<nat, nat>, total: nat, b: nat, o: nat)
    requires Tiles(size, total) && b in size
    requires b < o < End(b, size) || total <= o
    ensures o !in size
  {
    if o in size && total <= o {
      Successor(size, total, o);
    }
  }

  /** The sizes after carving the block b into a bytes and a new block right after them. */
  function Carved(size: map<nat, nat>, b: nat, a: nat): (r: map<nat, nat>)
    requires b in size && a + FREE_HDR <= size[b]
    ensures forall o :: o in r <==> o in size || o == b + ALLOC_HDR + a
    ensures r[b] == a && r[b + ALLOC_HDR + a] == size[b] - a - ALLOC_HDR
    ensures forall o :: o in size && o != b && o != b + ALLOC_HDR + a ==> r[o] == size[o]
  {
    size[b + ALLOC_HDR + a := size[b] - a - ALLOC_HDR][b := a]
  }

  /** The sizes after the block b absorbs the block c, header included. */
  function Fused(size: map<nat, nat>, b: nat, c: nat): (r: map<nat, nat>)
    requires b in size && c in size && b != c
    ensures forall o :: o in r <==> o in size && o != c
    ensures r[b] == size[b] + FREE_HDR + size[c]
    ensures forall o :: o in size && o != b && o != c ==> r[o] == size[o]
  {
    size[b := size[b] + FREE_HDR + size[c]] - {c}
  }

  /**
   * Carving: the block b keeps its first a bytes and a new block starts right
   * after them with the rest; the region is still tiled.
   */
  lemma SplitTiles(size: map<nat, nat>, total: nat, b: nat, a: nat)
    requires Tiles(size, total) && b in size && a + FREE_HDR <= size[b]
    ensures Tiles(Carved(size, b, a), total)
  {
    var c := b + ALLOC_HDR + a;
    var size' := Carved(size, b, a);
    NoInnerHeader(size, total, b, c);
    assert End(c, size') == End(b, size);
    Successor(size, total, b);
    forall o | o in size'
      ensures End(o, size') == total || (End(o, size') < total && End(o, size') in size')
    {
      if o != b && o != c {
        assert End(o, size') == End(o, size);
        Successor(size, total, o);
      }
    }
    forall o, p | o in size' && p in size' && o < p
      ensures End(o, size') <= p
    {
      if o == b {
        if p != c {
          assert End(b, size) <= p;
        }
      } else if o == c {
        assert p != b;
        assert End(b, size) <= p;
      } else {
        assert End(o, size') == End(o, size);
        if p == c {
          assert End(o, size) <= b;
        } else {
          assert End(o, size) <= p;
        }
      }
    }
  }

  /** Fusing: the block b absorbs the block right after it; the region is still tiled. */
  lemma FuseTiles(size: map<nat, nat>, total: nat, b: nat)
    requires Tiles(size, total) && b in size && End(b, size) in size
    ensures End(b, size) != b
    ensures Tiles(Fused(size, b, End(b, size)), total)
  {
    var c := End(b, size);
    var size' := Fused(size, b, c);
    assert End(b, size') == End(c, size);
    Successor(size, total, c);
    forall o | o in size'
      ensures End(o, size') == total || (End(o, size') < total && End(o, size') in size')
    {
      if o != b {
        assert End(o, size') == End(o, size);
        Successor(size, total, o);
      }
    }
    forall o, p | o in size' && p in size' && o < p
      ensures End(o, size') <= p
    {
      if o == b {
        assert c <= p && End(c, size) <= p;
      } else if p != b {
        assert End(o, size') == End(o, size);
        assert End(o, size) <= p;
      } else {
        assert End(o, size) <= p;
      }
    }
  }

  /**
   * Moving the boundary between the block b and the block c right after it:
   * b keeps a bytes, and a block that ends where c ended starts right after
   * them; the region is still tiled.
   */
  lemma ShiftTiles(size: map<nat, nat>, total: nat, b: nat, a: nat)
    requires Tiles(size, total) && b in size && End(b, size) in size
    requires a <= size[b] + size[End(b, size)]
    ensures End(b, size) != b
    ensures Tiles(Carved(Fused(size, b, End(b, size)), b, a), total)
  {
    FuseTiles(size, total, b);
    SplitTiles(Fused(size, b, End(b, size)), total, b, a);
  }
}
