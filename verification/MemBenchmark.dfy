/**
  How a libc benchmark chooses the offsets of all its operations, and the range of the 32-bit arithmetic that
  it uses for them.
 */
module MemBenchmark {
  import opened Wrappers
  import opened BlockLru
  import opened MemOffsets
  import opened Numbers
  import opened RetryLoop

  // ---- One pair of offsets

  predicate InBuffer(offset: int, size: int, bufferSize: nat) {
    0 <= offset && offset + size <= bufferSize
  }

  /** Source and destination for memmove and the comparisons. The two random draws are parameters: whether
      the ranges overlap, and the destination's offset from the source if they do. The retry loop is cut off,
      after `tries` rounds, only where it need not end. */
  method GetNextSrcDstOffsetWithOverlap(doesOverlap: bool, offset: int, bufferSize: nat, size: int,
                                        srcBlockOffset: int, dstBlockOffset: int,
                                        src: BlockList, dst: BlockList, shuffle: Shuffle, rng: Rng, tries: nat)
    returns (pair: Option<(int, int)>, ghost lists: seq<seq<int>>)
    requires src != dst && Permutes(shuffle) && AllPermute(rng)
    requires IsBlockList(src.blocks, bufferSize) && IsBlockList(dst.blocks, bufferSize)
    requires SizeRule(size, bufferSize) && InLine(srcBlockOffset) && InLine(dstBlockOffset)
    requires IsOverlapOffset(size, offset)
    modifies src, dst
    ensures IsBlockList(src.blocks, bufferSize) && IsBlockList(dst.blocks, bufferSize)
    ensures pair.Some? ==>
              && InBuffer(pair.value.0, size, bufferSize) && InBuffer(pair.value.1, size, bufferSize)
              && CheckOverlap(pair.value.0, pair.value.1, size) == (doesOverlap && size > 0)
    ensures var r := if doesOverlap then WithMargins(size, srcBlockOffset, bufferSize, offset)
                     else Plain(size, srcBlockOffset, bufferSize);
            var s := old(src.blocks);
            && FirstFit(r, s) < |s| && src.blocks == NextList(r, s, shuffle)
            && (pair.Some? ==> pair.value.0 == s[FirstFit(r, s)] + srcBlockOffset)
    ensures doesOverlap ==>
              pair.Some? && pair.value.1 == pair.value.0 + offset && dst.blocks == old(dst.blocks)
    ensures !doesOverlap && pair.Some? ==>
              && FailedRounds(Plain(size, dstBlockOffset, bufferSize), pair.value.0, lists, rng)
              && lists[0] == old(dst.blocks)
              && FoundAfter(Plain(size, dstBlockOffset, bufferSize), pair.value.0, lists, rng, pair.value.1, dst.blocks)
    ensures pair.None? ==> !doesOverlap && !LoopEnds(size, dstBlockOffset, bufferSize)
  {
    if doesOverlap {
      var r := WithMargins(size, srcBlockOffset, bufferSize, offset);
      SomeBlockFits(size, bufferSize, srcBlockOffset, offset, src.blocks);
      var srcOffset := src.GetNextOffset(r, shuffle);
      return Some((srcOffset, srcOffset + offset)), [];
    }
    var srcOffset := NextInBuffer(size, srcBlockOffset, bufferSize, src, shuffle);
    var dstOffset;
    dstOffset, lists := NextClear(size, dstBlockOffset, bufferSize, srcOffset, dst, rng, tries);
    pair := if dstOffset.None? then None else Some((srcOffset, dstOffset.value));
  }

  /** A block for an operation that may lie anywhere in its buffer. */
  method NextInBuffer(size: int, blockOffset: int, bufferSize: nat, list: BlockList, shuffle: Shuffle)
    returns (offset: int)
    requires IsBlockList(list.blocks, bufferSize) && Permutes(shuffle)
    requires size >= 0 && blockOffset >= 0 && bufferSize > 0 && blockOffset + size <= bufferSize
    modifies list
    ensures IsBlockList(list.blocks, bufferSize)
    ensures InBuffer(offset, size, bufferSize)
    ensures var r := Plain(size, blockOffset, bufferSize);
            var was := old(list.blocks);
            && FirstFit(r, was) < |was| && offset == was[FirstFit(r, was)] + blockOffset
            && list.blocks == NextList(r, was, shuffle)
  {
    FrontBlockFits(size, bufferSize, blockOffset, list.blocks);
    offset := list.GetNextOffset(Plain(size, blockOffset, bufferSize), shuffle);
    ListedIsBlock(offset - blockOffset, bufferSize, old(list.blocks));
  }

  /** The do-while loop that looks for a destination. It runs until it finds one; only where it need not end is
      it cut off, after `tries` rounds. The lists that its failed rounds leave behind are given too. */
  method FindClear(size: int, dstBlockOffset: int, bufferSize: nat, srcOffset: int, dst: BlockList, rng: Rng, tries: nat)
    returns (dstOffset: Option<int>, ghost lists: seq<seq<int>>)
    requires AllPermute(rng) && IsBlockList(dst.blocks, bufferSize)
    requires SizeRule(size, bufferSize) && InLine(dstBlockOffset) && InBuffer(srcOffset, size, bufferSize)
    modifies dst
    ensures multiset(dst.blocks) == multiset(old(dst.blocks))
    ensures FailedRounds(Plain(size, dstBlockOffset, bufferSize), srcOffset, lists, rng) && lists[0] == old(dst.blocks)
    ensures dstOffset.None? ==>
              !LoopEnds(size, dstBlockOffset, bufferSize) && |lists| == tries + 1 && dst.blocks == lists[tries]
    ensures dstOffset.Some? ==>
              FoundAfter(Plain(size, dstBlockOffset, bufferSize), srcOffset, lists, rng, dstOffset.value, dst.blocks)
    ensures dstOffset.Some? && !LoopEnds(size, dstBlockOffset, bufferSize) ==> |lists| <= tries
  {
    var r := Plain(size, dstBlockOffset, bufferSize);
    FrontBlockFits(size, bufferSize, dstBlockOffset, dst.blocks);
    lists := [dst.blocks];
    var k: nat := 0;
    var ends := LoopEnds(size, dstBlockOffset, bufferSize);
    ghost var bound := MaxRounds(|dst.blocks|);
    while ends || k < tries
      invariant ends || k <= tries
      invariant |lists| == k + 1 && lists[0] == old(dst.blocks) && lists[k] == dst.blocks
      invariant FailedRounds(r, srcOffset, lists, rng)
      invariant multiset(dst.blocks) == multiset(old(dst.blocks)) && SomeFits(r, dst.blocks)
      decreases if ends then bound - k else tries - k
    {
      assert ends ==> k < bound by {
        if ends {
          LoopIsBounded(size, dstBlockOffset, bufferSize, srcOffset, lists, rng);
        }
      }
      RoundKeepsFit(r, dst.blocks, rng(k));
      var d := dst.GetNextOffset(r, rng(k));
      if !CheckOverlap(srcOffset, d, size) {
        return Some(d), lists;
      }
      OneMoreRound(r, srcOffset, lists, dst.blocks, rng);
      lists := lists + [dst.blocks];
      k := k + 1;
    }
    return None, lists;
  }

  /** In the list that the failed rounds leave, the first block that fits is clear; the offset is on it. */
  ghost predicate FoundAfter(r: Request, srcOffset: int, lists: seq<seq<int>>, rng: Rng, offset: int, next: seq<int>)
    requires lists != []
  {
    var last := lists[|lists| - 1];
    var i := FirstFit(r, last);
    && i < |last| && offset == last[i] + r.blockOffset && !CheckOverlap(srcOffset, offset, r.size)
    && next == NextList(r, last, rng(|lists| - 1))
  }

  lemma RoundKeepsFit(r: Request, blocks: seq<int>, shuffle: Shuffle)
    requires SomeFits(r, blocks) && Permutes(shuffle)
    ensures FirstFit(r, blocks) < |blocks| && SomeFits(r, NextList(r, blocks, shuffle))
  {
    FitIsFound(r, blocks);
    NextListPermutes(r, blocks, shuffle);
    var b :| b in blocks && Fits(r, b);
    assert b in multiset(NextList(r, blocks, shuffle));
  }

  /** A block clear of the source, for an operation within the sizing rule. There always is an answer, except
      where the loop need not end. */
  method NextClear(size: int, dstBlockOffset: int, bufferSize: nat, srcOffset: int, dst: BlockList, rng: Rng, tries: nat)
    returns (dstOffset: Option<int>, ghost lists: seq<seq<int>>)
    requires AllPermute(rng) && IsBlockList(dst.blocks, bufferSize)
    requires SizeRule(size, bufferSize) && InLine(dstBlockOffset) && InBuffer(srcOffset, size, bufferSize)
    modifies dst
    ensures IsBlockList(dst.blocks, bufferSize)
    ensures dstOffset.Some? ==>
              InBuffer(dstOffset.value, size, bufferSize) && !CheckOverlap(srcOffset, dstOffset.value, size)
    ensures FailedRounds(Plain(size, dstBlockOffset, bufferSize), srcOffset, lists, rng) && lists[0] == old(dst.blocks)
    ensures dstOffset.Some? ==>
              FoundAfter(Plain(size, dstBlockOffset, bufferSize), srcOffset, lists, rng, dstOffset.value, dst.blocks)
    ensures dstOffset.None? ==> !LoopEnds(size, dstBlockOffset, bufferSize)
  {
    dstOffset, lists := FindClear(size, dstBlockOffset, bufferSize, srcOffset, dst, rng, tries);
    if dstOffset.Some? {
      FoundIsInBuffer(size, dstBlockOffset, bufferSize, srcOffset, lists, rng, dstOffset.value, dst.blocks);
    }
  }

  lemma FoundIsInBuffer(size: int, dstBlockOffset: int, bufferSize: nat, srcOffset: int,
                        lists: seq<seq<int>>, rng: Rng, offset: int, next: seq<int>)
    requires lists != [] && AllPermute(rng) && IsBlockList(next, bufferSize) && InLine(dstBlockOffset)
    requires FoundAfter(Plain(size, dstBlockOffset, bufferSize), srcOffset, lists, rng, offset, next)
    ensures InBuffer(offset, size, bufferSize)
  {
    var last := lists[|lists| - 1];
    NextListPermutes(Plain(size, dstBlockOffset, bufferSize), last, rng(|lists| - 1));
    ListedIsBlock(offset - dstBlockOffset, bufferSize, last);
  }

  // ---- All operations of a benchmark

  datatype Kind = Memcpy | Memset | Memmove | Compare

  predicate SharesBuffer(kind: Kind) {
    kind == Memmove || kind == Compare
  }

  /** What is drawn for one operation. */
  datatype Draw = Draw(size: int, srcBlockOffset: int, dstBlockOffset: int, doesOverlap: bool, offset: int)

  predicate Allowed(kind: Kind, d: Draw, bufferSize: nat) {
    && InLine(d.srcBlockOffset) && InLine(d.dstBlockOffset)
    && if SharesBuffer(kind) then SizeRule(d.size, bufferSize) && IsOverlapOffset(d.size, d.offset)
       else bufferSize >= 2 * CACHE_LINE_SIZE && 0 <= d.size <= bufferSize / 2
  }

  datatype Operation = Operation(src: Option<int>, dst: int, size: int)

  /** An operation stays inside its buffers, and overlaps exactly when that was drawn and there are bytes to. */
  predicate WellPlaced(kind: Kind, d: Draw, bufferSize: nat, op: Operation) {
    && op.size == d.size
    && InBuffer(op.dst, d.size, bufferSize)
    && op.src.Some? == (kind != Memset)
    && (op.src.Some? ==> InBuffer(op.src.value, d.size, bufferSize))
    && (SharesBuffer(kind) ==> CheckOverlap(op.src.value, op.dst, d.size) == (d.doesOverlap && d.size > 0))
  }

  /** The retry loop is entered and need not end. */
  predicate MayNotEnd(kind: Kind, d: Draw, bufferSize: nat)
    requires Allowed(kind, d, bufferSize)
  {
    SharesBuffer(kind) && !d.doesOverlap && !LoopEnds(d.size, d.dstBlockOffset, bufferSize)
  }

  /** The offsets of a whole benchmark. Whatever is drawn and however often, every operation is well placed
      and both lists stay block lists. All draws get their operation, unless one is reached for which the retry
      loop need not end. */
  method ChooseOffsets(kind: Kind, draws: seq<Draw>, bufferSize: nat, src: BlockList, dst: BlockList,
                       shuffles: Rng, rngs: nat -> Rng, tries: nat)
    returns (ops: seq<Operation>)
    requires src != dst && IsBlockList(src.blocks, bufferSize) && IsBlockList(dst.blocks, bufferSize)
    requires AllPermute(shuffles) && forall i: nat :: AllPermute(rngs(i))
    requires forall i :: 0 <= i < |draws| ==> Allowed(kind, draws[i], bufferSize)
    modifies src, dst
    ensures IsBlockList(src.blocks, bufferSize) && IsBlockList(dst.blocks, bufferSize)
    ensures |ops| <= |draws|
    ensures forall i :: 0 <= i < |ops| ==> WellPlaced(kind, draws[i], bufferSize, ops[i])
    ensures |ops| < |draws| ==> MayNotEnd(kind, draws[|ops|], bufferSize)
  {
    ops := [];
    while |ops| < |draws|
      invariant |ops| <= |draws|
      invariant IsBlockList(src.blocks, bufferSize) && IsBlockList(dst.blocks, bufferSize)
      invariant forall i :: 0 <= i < |ops| ==> WellPlaced(kind, draws[i], bufferSize, ops[i])
      decreases |draws| - |ops|
    {
      var op := ChooseOne(kind, draws[|ops|], bufferSize, src, dst, shuffles(|ops|), rngs(|ops|), tries);
      if op.None? {
        return;
      }
      ops := ops + [op.value];
    }
  }

  /** One round of the loop over the operations. */
  method ChooseOne(kind: Kind, d: Draw, bufferSize: nat, src: BlockList, dst: BlockList, shuffle: Shuffle, rng: Rng,
                   tries: nat)
    returns (op: Option<Operation>)
    requires src != dst && IsBlockList(src.blocks, bufferSize) && IsBlockList(dst.blocks, bufferSize)
    requires Permutes(shuffle) && AllPermute(rng) && Allowed(kind, d, bufferSize)
    modifies src, dst
    ensures IsBlockList(src.blocks, bufferSize) && IsBlockList(dst.blocks, bufferSize)
    ensures op.Some? ==> WellPlaced(kind, d, bufferSize, op.value)
    ensures op.None? ==> MayNotEnd(kind, d, bufferSize)
  {
    match kind {
      case Memcpy =>
        var s := NextInBuffer(d.size, d.srcBlockOffset, bufferSize, src, shuffle);
        var t := NextInBuffer(d.size, d.dstBlockOffset, bufferSize, dst, rng(0));
        return Some(Operation(Some(s), t, d.size));
      case Memset =>
        var t := NextInBuffer(d.size, d.dstBlockOffset, bufferSize, dst, rng(0));
        return Some(Operation(None, t, d.size));
      case _ =>
        var pair, _ := GetNextSrcDstOffsetWithOverlap(d.doesOverlap, d.offset, bufferSize, d.size, d.srcBlockOffset,
                                                   d.dstBlockOffset, src, dst, shuffle, rng, tries);
        return if pair.None? then None else Some(Operation(Some(pair.value.0), pair.value.1, d.size));
    }
  }

  // ---- 32-bit arithmetic

  const MAX_OPERATION_SIZE: int := 262144
  const L3_LIMIT: int := INT32_MAX / 2 - MAX_OPERATION_SIZE - CACHE_LINE_SIZE - 1

  /** Every sum that the choice of offsets forms for a block of the buffer stays in range. */
  predicate SumsFit(bufferSize: nat, block: int, blockOffset: int, size: int, rightMargin: int) {
    && block + CACHE_LINE_SIZE <= INT32_MAX
    && block + blockOffset + size + rightMargin <= INT32_MAX
  }

  predicate IsSum(bufferSize: nat, block: int, blockOffset: int, size: int, rightMargin: int) {
    && 0 <= block < bufferSize && block % CACHE_LINE_SIZE == 0 && InLine(blockOffset)
    && 0 <= size <= MAX_OPERATION_SIZE && 0 <= rightMargin && (rightMargin == 0 || rightMargin < size)
  }

  ghost predicate NoOverflow(bufferSize: nat) {
    forall block, blockOffset, size, rightMargin | IsSum(bufferSize, block, blockOffset, size, rightMargin) ::
      SumsFit(bufferSize, block, blockOffset, size, rightMargin)
  }

  /** The check on the size of the level 3 cache is sufficient for the largest buffers, which are twice that
      size, with 66 bytes to spare and no more. */
  lemma NoOverflowIff(l3: nat)
    ensures NoOverflow(2 * l3) <==> l3 <= L3_LIMIT + 66
  {
    if l3 > L3_LIMIT + 66 {
      var block := 2146959360;
      assert IsSum(2 * l3, block, 63, MAX_OPERATION_SIZE, MAX_OPERATION_SIZE - 1);
      assert !SumsFit(2 * l3, block, 63, MAX_OPERATION_SIZE, MAX_OPERATION_SIZE - 1);
    } else {
      forall block, blockOffset, size, rightMargin | IsSum(2 * l3, block, blockOffset, size, rightMargin)
        ensures SumsFit(2 * l3, block, blockOffset, size, rightMargin)
      {
        assert block / CACHE_LINE_SIZE <= 33546239;
      }
    }
  }
}
