/**
 * Block headers, guards and the constants the allocator derives from them.
 *
 * On LP64 both header layouts (a free block's {size, next} and an allocated
 * block's {size, guard}) occupy 16 bytes, so the two differ by nothing and the
 * "too small to split" threshold is one header plus one guard word: 24 bytes.
 * Every size the allocator stores is a size_t; WORD is 2^64.
 */
module Block {

  datatype Option<T> = None | Some(value: T)

  const FREE_HDR: nat := 16      // sizeof(mem_free_block_t)
  const ALLOC_HDR: nat := 16     // sizeof(mem_allocated_block_t)
  const MAX_HDR: nat := 16       // the larger of the two header sizes
  const MIN_HDR: nat := 16       // the smaller of the two header sizes
  const FREE_ALL_DIFF: nat := 0  // ALLOC_HDR - FREE_HDR
  const GUARD_SIZE: nat := 8     // width of the guard word (SECRET_SIZE)
  const SPLIT_LIMIT: nat := MAX_HDR + GUARD_SIZE
  const SECRET: nat := 0xDEAD_BEEF_FEED_FACE
  const WORD: nat := 0x1_0000_0000_0000_0000
  const SIZE_MAX: nat := WORD - 1
  const NULL: nat := 0

  /** What a call that may abort on detected corruption did. */
  datatype Status = Done | Aborted

  /** The result of mem_realloc: a pointer (possibly NULL), or an abort. */
  datatype Outcome = Returned(ptr: nat) | Abort

  /** One line of mem_show: the payload address, the size printed, free or not. */
  datatype Span = Span(addr: nat, size: nat, isFree: bool)

  /** A size_t subtraction, wrapping modulo 2^64 as C unsigned arithmetic does. */
  function SizeSub(a: nat, b: nat): (r: nat)
    ensures r < WORD
    ensures b <= a < WORD ==> r == a - b
  {
    (a - b) % WORD
  }

  /** One byte of memory. */
  newtype byte = x: int | 0 <= x < 256

  /**
   * Bitwise exclusive or of a and b. Two values below 2^64 give a value
   * below 2^64, so this is also the uint64_t operation on such values.
   */
  function Xor(a: nat, b: nat): nat
    decreases a + b
  {
    if a == 0 then b
    else if b == 0 then a
    else (if a % 2 == b % 2 then 0 else 1) + 2 * Xor(a / 2, b / 2)
  }

  /**
   * The guard word of the block whose header is at address addr: the
   * address, as a uint64_t, XOR the secret.
   */
  function GuardOf(addr: nat, secret: nat): nat
  {
    Xor(addr, secret)
  }

  /** Byte m of the word w, in little-endian (memory) order. */
  function ByteOf(w: nat, m: nat): (r: nat)
    ensures r < 256
  {
    if m == 0 then w % 256 else ByteOf(w / 256, m - 1)
  }

  /** The word w with its byte m, in memory order, replaced by v. */
  function SetByte(w: nat, m: nat, v: nat): (r: nat)
    requires v < 256
    ensures ByteOf(r, m) == v
    ensures forall j :: j != m ==> ByteOf(r, j) == ByteOf(w, j)
  {
    if m == 0 then w - w % 256 + v else SetByte(w / 256, m - 1, v) * 256 + w % 256
  }

  /** A store into one byte of a word leaves the word as it was exactly when it stores the byte already there. */
  lemma {:induction false} SetByteSame(w: nat, m: nat, v: nat)
    requires v < 256
    ensures SetByte(w, m, v) == w <==> ByteOf(w, m) == v
    decreases m
  {
    if m > 0 {
      SetByteSame(w / 256, m - 1, v);
    }
  }

  /** n bytes whose value the allocator does not choose (the model writes zeros). */
  function Unset(n: nat): (r: seq<byte>)
    ensures |r| == n
  {
    seq(n, _ => 0)
  }

  /** memcpy of src over the start of dst: the first |src| bytes become src's, the rest stay dst's. */
  function CopiedOver(dst: seq<byte>, src: seq<byte>): (r: seq<byte>)
    requires |src| <= |dst|
    ensures |r| == |dst|
    ensures forall i :: 0 <= i < |src| ==> r[i] == src[i]
    ensures forall i :: |src| <= i < |dst| ==> r[i] == dst[i]
  {
    src + dst[|src|..]
  }

  /**
   * The client bytes of a block resized to hold n of them: the first bytes
   * are kept, bytes the block gains are Unset.
   */
  function Resized(data: seq<byte>, n: nat): (r: seq<byte>)
    ensures |r| == n
    ensures forall i :: 0 <= i < n && i < |data| ==> r[i] == data[i]
  {
    if n <= |data| then data[..n] else data + Unset(n - |data|)
  }
}
