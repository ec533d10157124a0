/**
 * The three placement strategies. Each walks the free list once, reading
 * the size of every free block, and returns the chosen block or NULL; none
 * of them changes the list. The list is given here as the sequence of the
 * free blocks' sizes, in list order, and a choice is an index into it.
 */
module Fit {
  import opened Block

  /** The strategy mem_alloc asks for a block; mem_set_fit_handler swaps it. */
  datatype Strategy = First | Best | Worst

  /** mem_first_fit's promise: the earliest block of at least need bytes, or none when there is none. */
  ghost predicate IsFirstFit(sizes: seq<nat>, need: nat, r: Option<nat>)
  {
    match r
    case None => forall i :: 0 <= i < |sizes| ==> sizes[i] < need
    case Some(i) => i < |sizes| && need <= sizes[i] && forall j :: 0 <= j < i ==> sizes[j] < need
  }

  /**
   * mem_best_fit's promise: the smallest block of at least need bytes, the
   * earliest among equals. Its running minimum starts at SIZE_MAX and is
   * replaced only by a strictly smaller size, so a block of exactly
   * SIZE_MAX bytes is never a candidate.
   */
  ghost predicate IsBestFit(sizes: seq<nat>, need: nat, r: Option<nat>)
  {
    match r
    case None => forall i :: 0 <= i < |sizes| ==> !(need <= sizes[i] < SIZE_MAX)
    case Some(i) =>
      && i < |sizes| && need <= sizes[i] < SIZE_MAX
      && (forall j :: 0 <= j < |sizes| && need <= sizes[j] ==> sizes[i] <= sizes[j])
      && (forall j :: 0 <= j < i && need <= sizes[j] ==> sizes[i] < sizes[j])
  }

  /**
   * mem_worst_fit's promise: the largest block of at least need bytes, the
   * earliest among equals. Its running maximum starts at 0 and is replaced
   * only by a strictly larger size, so a block of 0 bytes is never a
   * candidate.
   */
  ghost predicate IsWorstFit(sizes: seq<nat>, need: nat, r: Option<nat>)
  {
    match r
    case None => forall i :: 0 <= i < |sizes| ==> !(need <= sizes[i] && 0 < sizes[i])
    case Some(i) =>
      && i < |sizes| && need <= sizes[i] && 0 < sizes[i]
      && (forall j :: 0 <= j < |sizes| && need <= sizes[j] ==> sizes[j] <= sizes[i])
      && (forall j :: 0 <= j < i && need <= sizes[j] ==> sizes[j] < sizes[i])
  }

  /** What the strategy s promises. */
  ghost predicate Picks(s: Strategy, sizes: seq<nat>, need: nat, r: Option<nat>)
  {
    match s
    case First => IsFirstFit(sizes, need, r)
    case Best => IsBestFit(sizes, need, r)
    case Worst => IsWorstFit(sizes, need, r)
  }

  /** mem_first_fit */
  method FirstFit(sizes: seq<nat>, need: nat) returns (r: Option<nat>)
    ensures IsFirstFit(sizes, need, r)
  {
    var i := 0;
    while i < |sizes|
      invariant i <= |sizes|
      invariant forall j :: 0 <= j < i ==> sizes[j] < need
    {
      if sizes[i] >= need {
        return Some(i);
      }
      i := i + 1;
    }
    return None;
  }

  /** mem_best_fit */
  method BestFit(sizes: seq<nat>, need: nat) returns (r: Option<nat>)
    ensures IsBestFit(sizes, need, r)
  {
    var bestSize := SIZE_MAX;
    r := None;
    var i := 0;
    while i < |sizes|
      invariant i <= |sizes|
      invariant IsBestFit(sizes[..i], need, r)
      invariant bestSize == if r.Some? then sizes[r.value] else SIZE_MAX
    {
      if sizes[i] >= need && sizes[i] < bestSize {
        bestSize := sizes[i];
        r := Some(i);
      }
      i := i + 1;
    }
    assert sizes[..i] == sizes;
  }

  /** mem_worst_fit */
  method WorstFit(sizes: seq<nat>, need: nat) returns (r: Option<nat>)
    ensures IsWorstFit(sizes, need, r)
  {
    var worstSize := 0;
    r := None;
    var i := 0;
    while i < |sizes|
      invariant i <= |sizes|
      invariant IsWorstFit(sizes[..i], need, r)
      invariant worstSize == if r.Some? then sizes[r.value] else 0
    {
      if sizes[i] >= need && sizes[i] > worstSize {
        worstSize := sizes[i];
        r := Some(i);
      }
      i := i + 1;
    }
    assert sizes[..i] == sizes;
  }

  /** The call through current_fit_function. */
  method Select(s: Strategy, sizes: seq<nat>, need: nat) returns (r: Option<nat>)
    ensures Picks(s, sizes, need, r)
  {
    match s
    case First => r := FirstFit(sizes, need);
    case Best => r := BestFit(sizes, need);
    case Worst => r := WorstFit(sizes, need);
  }

  /** Each strategy's promise determines its answer. */
  lemma PicksUnique(s: Strategy, sizes: seq<nat>, need: nat, r1: Option<nat>, r2: Option<nat>)
    requires Picks(s, sizes, need, r1) && Picks(s, sizes, need, r2)
    ensures r1 == r2
  {
  }

  /**
   * On sizes a heap can hold (below SIZE_MAX) and a nonzero request, every
   * strategy finds a block exactly when some free block has at least need
   * bytes, and the block it finds has at least need bytes.
   */
  lemma PicksFindsIffFits(s: Strategy, sizes: seq<nat>, need: nat, r: Option<nat>)
    requires Picks(s, sizes, need, r)
    requires 0 < need && forall i :: 0 <= i < |sizes| ==> sizes[i] < SIZE_MAX
    ensures r.None? <==> forall i :: 0 <= i < |sizes| ==> sizes[i] < need
    ensures r.Some? ==> r.value < |sizes| && need <= sizes[r.value]
  {
  }

  /**
   * The strategies differ: with free blocks of 50, 200 and 80 bytes and a
   * request of 60, first fit and worst fit take the 200-byte block and best
   * fit the 80-byte one.
   */
  lemma StrategiesDiffer()
    ensures IsFirstFit([50, 200, 80], 60, Some(1))
    ensures IsBestFit([50, 200, 80], 60, Some(2))
    ensures IsWorstFit([50, 200, 80], 60, Some(1))
    ensures !IsFirstFit([50, 200, 80], 60, Some(2))
  {
  }
}
