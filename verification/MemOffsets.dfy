/**
  Source and destination offsets for the libc benchmarks: overlap, the sizing rule, and the retry loop that
  looks for a destination clear of the source.
 */
module MemOffsets {
  import opened BlockLru
  import opened BlockOrder

  predicate CheckOverlap(srcOffset: int, dstOffset: int, size: int) {
    srcOffset + size > dstOffset && srcOffset < dstOffset + size
  }

  predicate InRange(byte: int, offset: int, size: int) {
    offset <= byte < offset + size
  }

  /** The test is exact: for non-empty ranges it says whether they have a byte in common. */
  lemma CheckOverlapIff(srcOffset: int, dstOffset: int, size: int)
    requires size > 0
    ensures CheckOverlap(srcOffset, dstOffset, size)
            <==> exists byte :: InRange(byte, srcOffset, size) && InRange(byte, dstOffset, size)
  {
    if CheckOverlap(srcOffset, dstOffset, size) {
      var first := if srcOffset < dstOffset then dstOffset else srcOffset;
      assert InRange(first, srcOffset, size) && InRange(first, dstOffset, size);
    }
  }

  /** A size that memmove and the comparisons allow for a buffer: at most a third of it, less a line. */
  predicate SizeRule(size: int, bufferSize: nat) {
    bufferSize >= 3 * CACHE_LINE_SIZE && 0 <= size <= bufferSize / 3 - CACHE_LINE_SIZE
  }

  /** A draw from the open interval between `-size` and `size`; from the empty one, for size zero, the draw is its
      lower end. */
  predicate IsOverlapOffset(size: int, offset: int) {
    -size < offset < size || size == offset == 0
  }

  predicate InLine(blockOffset: int) {
    0 <= blockOffset < CACHE_LINE_SIZE
  }

  function Plain(size: int, blockOffset: int, bufferSize: nat): Request {
    Request(size, blockOffset, bufferSize, 0, 0)
  }

  /** The request for a source whose destination is `offset` away. */
  function WithMargins(size: int, blockOffset: int, bufferSize: nat, offset: int): Request {
    Request(size, blockOffset, bufferSize, if offset < 0 then -offset else 0, if offset > 0 then offset else 0)
  }

  // ---- The sizing rule

  lemma BlockIsListed(b: int, bufferSize: nat, blocks: seq<int>)
    requires IsBlockList(blocks, bufferSize)
    requires 0 <= b < bufferSize && b % CACHE_LINE_SIZE == 0
    ensures b in blocks
  {
    var all := AllBlocks(bufferSize);
    assert all[b / CACHE_LINE_SIZE] == b;
    assert b in multiset(all);
  }

  lemma ListedIsBlock(b: int, bufferSize: nat, blocks: seq<int>)
    requires IsBlockList(blocks, bufferSize) && b in blocks
    ensures 0 <= b < bufferSize && b % CACHE_LINE_SIZE == 0
  {
    assert b in multiset(blocks);
    assert b in AllBlocks(bufferSize);
  }

  /** The least block start at or above an address. */
  function RoundUp(a: int): (b: int)
    requires a >= 0
    ensures b >= a && b < a + CACHE_LINE_SIZE && b % CACHE_LINE_SIZE == 0
  {
    (a + CACHE_LINE_SIZE - 1) / CACHE_LINE_SIZE * CACHE_LINE_SIZE
  }

  /** A block on which the operation fits and does not overlap the source. */
  predicate Clear(r: Request, srcOffset: int, b: int) {
    Fits(r, b) && !CheckOverlap(srcOffset, b + r.blockOffset, r.size)
  }

  /** The sizing rule is sufficient: whatever the source and the destination's offset in its line, there is
      a block that is clear of the source. */
  lemma SomeBlockIsClear(size: int, bufferSize: nat, srcOffset: int, dstBlockOffset: int, blocks: seq<int>)
    requires SizeRule(size, bufferSize) && InLine(dstBlockOffset) && IsBlockList(blocks, bufferSize)
    requires 0 <= srcOffset && srcOffset + size <= bufferSize
    ensures exists b :: b in blocks && Clear(Plain(size, dstBlockOffset, bufferSize), srcOffset, b)
  {
    var b := if srcOffset >= dstBlockOffset + size then 0
             else RoundUp(if srcOffset + size > dstBlockOffset then srcOffset + size - dstBlockOffset else 0);
    BlockIsListed(b, bufferSize, blocks);
    assert Clear(Plain(size, dstBlockOffset, bufferSize), srcOffset, b);
  }

  /** There is always a block for a source with a margin on either side, and so for the plain requests. */
  lemma SomeBlockFits(size: int, bufferSize: nat, blockOffset: int, offset: int, blocks: seq<int>)
    requires SizeRule(size, bufferSize) && InLine(blockOffset) && IsOverlapOffset(size, offset)
    requires IsBlockList(blocks, bufferSize)
    ensures SomeFits(WithMargins(size, blockOffset, bufferSize, offset), blocks)
  {
    var b := RoundUp(if offset < 0 then -offset else 0);
    BlockIsListed(b, bufferSize, blocks);
    assert Fits(WithMargins(size, blockOffset, bufferSize, offset), b);
  }

  /** An operation that fits at the start of the buffer finds a block; so does every memcpy and memset, which
      may use half of the buffer. */
  lemma FrontBlockFits(size: int, bufferSize: nat, blockOffset: int, blocks: seq<int>)
    requires size >= 0 && blockOffset >= 0 && bufferSize > 0 && blockOffset + size <= bufferSize
    requires IsBlockList(blocks, bufferSize)
    ensures SomeFits(Plain(size, blockOffset, bufferSize), blocks)
  {
    BlockIsListed(0, bufferSize, blocks);
    assert Fits(Plain(size, blockOffset, bufferSize), 0);
  }

  // ---- The retry loop

  /** A round of the loop that picks a block overlapping the source, so that another one follows. */
  ghost predicate FailedRound(r: Request, srcOffset: int, blocks: seq<int>, next: seq<int>, shuffle: Shuffle) {
    var i := FirstFit(r, blocks);
    i < |blocks| && CheckOverlap(srcOffset, blocks[i] + r.blockOffset, r.size) && next == NextList(r, blocks, shuffle)
  }

  /** The lists before, between and after the failed rounds of one call. */
  ghost predicate FailedRounds(r: Request, srcOffset: int, lists: seq<seq<int>>, rng: Rng) {
    && lists != []
    && forall i: nat {:trigger rng(i)} :: i + 1 < |lists| ==> FailedRound(r, srcOffset, lists[i], lists[i + 1], rng(i))
  }

  lemma OneMoreRound(r: Request, srcOffset: int, lists: seq<seq<int>>, next: seq<int>, rng: Rng)
    requires FailedRounds(r, srcOffset, lists, rng)
    requires FailedRound(r, srcOffset, lists[|lists| - 1], next, rng(|lists| - 1))
    ensures FailedRounds(r, srcOffset, lists + [next], rng)
  {
  }

  /** An operation on this block fits, overlaps the source and touches `g`. */
  predicate Pulls(r: Request, srcOffset: int, b: int, g: int) {
    Fits(r, b) && CheckOverlap(srcOffset, b + r.blockOffset, r.size) && Touches(r, b, g)
  }

  // ---- A stable block

  /** A block that is clear of the source and that no operation on an overlapping block touches. */
  ghost predicate Stable(r: Request, srcOffset: int, g: int) {
    Clear(r, srcOffset, g) && forall b :: !Pulls(r, srcOffset, b, g)
  }

  /** Picking an overlapping block moves a stable block forward. */
  lemma StableMovesUp(r: Request, srcOffset: int, blocks: seq<int>, shuffle: Shuffle, g: int)
    requires g in blocks && Stable(r, srcOffset, g) && r.blockOffset >= 0
    requires FirstFit(r, blocks) < |blocks|
    requires CheckOverlap(srcOffset, blocks[FirstFit(r, blocks)] + r.blockOffset, r.size)
    ensures g in NextList(r, blocks, shuffle)
    ensures IndexOf(NextList(r, blocks, shuffle), g) < IndexOf(blocks, g)
  {
    assert !Pulls(r, srcOffset, blocks[FirstFit(r, blocks)], g);
    UntouchedMovesUp(r, blocks, shuffle, g);
  }

  lemma {:induction false} StableKeepsMoving(r: Request, srcOffset: int, lists: seq<seq<int>>, rng: Rng, g: int, j: nat)
    requires FailedRounds(r, srcOffset, lists, rng) && j < |lists|
    requires g in lists[0] && Stable(r, srcOffset, g) && r.blockOffset >= 0
    ensures g in lists[j] && IndexOf(lists[j], g) + j <= IndexOf(lists[0], g)
    decreases j
  {
    if j > 0 {
      StableKeepsMoving(r, srcOffset, lists, rng, g, j - 1);
      assert FailedRound(r, srcOffset, lists[j - 1], lists[j - 1 + 1], rng(j - 1));
      StableMovesUp(r, srcOffset, lists[j - 1], rng(j - 1), g);
    }
  }

  /** With a stable block in the list, the loop ends whatever the shuffles: fewer rounds than there are
      blocks up to the stable one can fail. */
  lemma RetryEnds(r: Request, srcOffset: int, lists: seq<seq<int>>, rng: Rng, g: int)
    requires FailedRounds(r, srcOffset, lists, rng)
    requires g in lists[0] && Stable(r, srcOffset, g) && r.blockOffset >= 0
    ensures |lists| - 1 <= IndexOf(lists[0], g) < |lists[0]|
  {
    StableKeepsMoving(r, srcOffset, lists, rng, g, |lists| - 1);
  }

  /** A block wholly below the source is never touched by an operation on an overlapping block. */
  lemma BelowIsStable(r: Request, srcOffset: int, g: int)
    requires Fits(r, g) && g + r.blockOffset + r.size <= srcOffset
    ensures Stable(r, srcOffset, g)
  {
  }

  /** Nor is one far enough above it. */
  lemma FarAboveIsStable(r: Request, srcOffset: int, g: int)
    requires Fits(r, g) && g >= srcOffset + 2 * r.size && r.blockOffset >= 0
    ensures Stable(r, srcOffset, g)
  {
  }
}
