/**
  Exactly when the loop that looks for a destination ends: a condition on the size, the offset in the line and
  the buffer that decides it for every source, every list and every outcome of the shuffles.

  If it holds, the loop works its way along three blocks: block zero, the first block that an operation on block
  zero does not touch, and the first that an operation on that one does not touch. If it does not, a list
  is given for which every round fails.
 */
module RetryLoop {
  import opened BlockLru
  import opened BlockOrder
  import opened MemOffsets

  /** How far an operation reaches from the start of its block. */
  function Reach(size: int, blockOffset: int): int {
    blockOffset + size
  }

  /** The first block that an operation on block zero does not touch. An operation on any block touches as many. */
  function Span(size: int, blockOffset: int): (m: int)
    requires size >= 0 && blockOffset >= 0
  {
    RoundUp(Reach(size, blockOffset))
  }

  /** What decides whether the loop ends: no source overlaps both block zero and the block `Span`, or there is
      room for an operation on a third such block. */
  predicate LoopEnds(size: int, blockOffset: int, bufferSize: nat)
    requires size >= 0 && blockOffset >= 0
  {
    || Span(size, blockOffset) >= 2 * size - 1
    || RoundUp(Span(size, blockOffset) + Reach(size, blockOffset)) + Reach(size, blockOffset) <= bufferSize
  }

  lemma SpanTwice(size: int, blockOffset: int)
    requires size >= 0 && blockOffset >= 0
    ensures RoundUp(Span(size, blockOffset) + Reach(size, blockOffset)) == 2 * Span(size, blockOffset)
  {
    var m := Span(size, blockOffset);
    SameBlock(RoundUp(m + Reach(size, blockOffset)), 2 * m);
  }

  /** Block starts less than a line apart are the same. */
  lemma SameBlock(a: int, b: int)
    requires a % CACHE_LINE_SIZE == 0 && b % CACHE_LINE_SIZE == 0 && -CACHE_LINE_SIZE < a - b < CACHE_LINE_SIZE
    ensures a == b
  {
  }

  lemma NextBlock(a: int, b: int)
    requires a % CACHE_LINE_SIZE == 0 && b % CACHE_LINE_SIZE == 0 && a < b
    ensures a + CACHE_LINE_SIZE <= b
  {
  }

  // ---- Leading blocks

  /** Of the blocks that pull `g` back, none but `g` itself is in front of it. */
  predicate Leads(r: Request, srcOffset: int, blocks: seq<int>, g: int) {
    g in blocks && forall b :: b in Before(blocks, g) ==> !Pulls(r, srcOffset, b, g)
  }

  /** A failed round that does not pick a leading block moves it up; it stays in the lead. */
  lemma LeaderMovesUp(r: Request, srcOffset: int, blocks: seq<int>, next: seq<int>, shuffle: Shuffle, g: int)
    requires FailedRound(r, srcOffset, blocks, next, shuffle) && r.blockOffset >= 0
    requires Leads(r, srcOffset, blocks, g) && Fits(r, g) && blocks[FirstFit(r, blocks)] != g
    ensures Leads(r, srcOffset, next, g) && IndexOf(next, g) < IndexOf(blocks, g)
  {
    LeaderIsBehind(r, srcOffset, blocks, g);
    UntouchedMovesUp(r, blocks, shuffle, g);
  }

  lemma LeaderIsBehind(r: Request, srcOffset: int, blocks: seq<int>, g: int)
    requires Leads(r, srcOffset, blocks, g) && Fits(r, g) && FirstFit(r, blocks) < |blocks|
    requires blocks[FirstFit(r, blocks)] != g
    requires CheckOverlap(srcOffset, blocks[FirstFit(r, blocks)] + r.blockOffset, r.size)
    ensures FirstFit(r, blocks) < IndexOf(blocks, g) && !Touches(r, blocks[FirstFit(r, blocks)], g)
  {
    var i := FirstFit(r, blocks);
    assert i < IndexOf(blocks, g) && Before(blocks, g)[i] == blocks[i];
    assert !Pulls(r, srcOffset, blocks[i], g);
  }

  /** A failed round on the slow path that touches all blocks that pull `g`, but not `g`, puts it in the lead. */
  lemma NextLeads(r: Request, srcOffset: int, blocks: seq<int>, next: seq<int>, shuffle: Shuffle, g: int)
    requires FailedRound(r, srcOffset, blocks, next, shuffle) && r.blockOffset >= 0
    requires blocks[FirstFit(r, blocks)] != blocks[0] && g in blocks
    requires !Touches(r, blocks[FirstFit(r, blocks)], g)
    requires forall b :: b in blocks && b != g && Pulls(r, srcOffset, b, g) ==> Touches(r, blocks[FirstFit(r, blocks)], b)
    ensures Leads(r, srcOffset, next, g)
  {
    var block := blocks[FirstFit(r, blocks)];
    SlowPick(r, blocks, shuffle, g);
    OthersAre(r, block, Before(blocks, g));
    forall b | b in Before(next, g) ensures !Pulls(r, srcOffset, b, g) {
      assert b in Before(blocks, g) && !Touches(r, block, b);
      assert b in blocks;
    }
  }

  /** A block that nothing pulls never moves back, and moves up whenever the fast path is taken. */
  lemma UnpulledMovesUp(r: Request, srcOffset: int, blocks: seq<int>, next: seq<int>, shuffle: Shuffle, g: int)
    requires FailedRound(r, srcOffset, blocks, next, shuffle) && r.blockOffset >= 0
    requires g in blocks && forall b :: b in blocks ==> !Pulls(r, srcOffset, b, g)
    ensures g in next && IndexOf(next, g) <= IndexOf(blocks, g)
    ensures blocks[FirstFit(r, blocks)] == blocks[0] ==> IndexOf(next, g) < IndexOf(blocks, g)
  {
    var block := blocks[FirstFit(r, blocks)];
    assert !Touches(r, block, g) by {
      assert !Pulls(r, srcOffset, block, g) && Fits(r, block);
    }
    if block == blocks[0] {
      FastPick(r, blocks, shuffle, g);
    } else {
      SlowPick(r, blocks, shuffle, g);
      OthersAre(r, block, Before(blocks, g));
    }
  }

  // ---- The blocks that the loop gets past

  /** The block that a phase of the loop is about. */
  function Gate(m: int, phase: nat): int {
    phase * m
  }

  /** A source in the buffer that overlaps an operation on block zero. */
  predicate Covers(size: int, blockOffset: int, bufferSize: nat, srcOffset: int) {
    && 0 <= srcOffset && srcOffset + size <= bufferSize
    && CheckOverlap(srcOffset, blockOffset, size)
  }

  lemma GateIsListed(size: int, blockOffset: int, bufferSize: nat, blocks: seq<int>, phase: nat)
    requires SizeRule(size, bufferSize) && InLine(blockOffset) && IsBlockList(blocks, bufferSize)
    requires Fits(Plain(size, blockOffset, bufferSize), Gate(Span(size, blockOffset), phase))
    ensures Gate(Span(size, blockOffset), phase) in blocks
  {
    var m := Span(size, blockOffset);
    assert phase * m >= 0 && (phase * m) % CACHE_LINE_SIZE == 0 by {
      assert m == m / CACHE_LINE_SIZE * CACHE_LINE_SIZE;
      MultipleOfMultiple(phase, m / CACHE_LINE_SIZE);
    }
    BlockIsListed(Gate(m, phase), bufferSize, blocks);
  }

  lemma MultipleOfMultiple(k: nat, n: nat)
    ensures k * (n * CACHE_LINE_SIZE) >= 0 && k * (n * CACHE_LINE_SIZE) % CACHE_LINE_SIZE == 0
  {
    assert k * (n * CACHE_LINE_SIZE) == (k * n) * CACHE_LINE_SIZE;
  }

  /** Only block zero pulls block zero, so it always leads. */
  lemma ZeroLeads(size: int, blockOffset: int, bufferSize: nat, srcOffset: int, blocks: seq<int>)
    requires SizeRule(size, bufferSize) && InLine(blockOffset) && IsBlockList(blocks, bufferSize)
    ensures Leads(Plain(size, blockOffset, bufferSize), srcOffset, blocks, 0)
  {
    BlockIsListed(0, bufferSize, blocks);
    forall b | b in Before(blocks, 0) ensures b > 0 {
      assert b in blocks;
      ListedIsBlock(b, bufferSize, blocks);
    }
  }

  /** The last block of the buffer. */
  function LastBlock(bufferSize: nat): (b: int)
    requires bufferSize > 0
    ensures b % CACHE_LINE_SIZE == 0 && 0 <= b && bufferSize - CACHE_LINE_SIZE <= b < bufferSize
  {
    (bufferSize - 1) / CACHE_LINE_SIZE * CACHE_LINE_SIZE
  }

  /** Within the sizing rule, a source that overlaps block zero is so far from the last block that no
      overlapping operation touches that. */
  lemma LastIsUnpulled(size: int, blockOffset: int, bufferSize: nat, srcOffset: int, b: int)
    requires SizeRule(size, bufferSize) && InLine(blockOffset) && Covers(size, blockOffset, bufferSize, srcOffset)
    ensures !Pulls(Plain(size, blockOffset, bufferSize), srcOffset, b, LastBlock(bufferSize))
  {
  }

  /** If an operation on a gate overlaps the source, so that the loop cannot end there, the next gate has room. */
  lemma NextGateFits(size: int, blockOffset: int, bufferSize: nat, srcOffset: int, phase: nat)
    requires SizeRule(size, bufferSize) && InLine(blockOffset) && LoopEnds(size, blockOffset, bufferSize)
    requires Covers(size, blockOffset, bufferSize, srcOffset) && phase <= 2
    requires CheckOverlap(srcOffset, Gate(Span(size, blockOffset), phase) + blockOffset, size)
    ensures phase < 2
    ensures Fits(Plain(size, blockOffset, bufferSize), Gate(Span(size, blockOffset), phase + 1))
  {
    var m := Span(size, blockOffset);
    SpanTwice(size, blockOffset);
    assert Gate(m, 0) == 0 && Gate(m, 1) == m && Gate(m, 2) == 2 * m;
  }

  /** An operation on a gate touches all other blocks that pull the next gate, but not that itself. */
  lemma GateTouches(size: int, blockOffset: int, bufferSize: nat, srcOffset: int, phase: nat, b: int)
    requires size >= 1 && InLine(blockOffset) && phase <= 1 && b % CACHE_LINE_SIZE == 0
    ensures var r := Plain(size, blockOffset, bufferSize);
            var m := Span(size, blockOffset);
            && !Touches(r, Gate(m, phase), Gate(m, phase + 1))
            && (b != Gate(m, phase + 1) && Pulls(r, srcOffset, b, Gate(m, phase + 1)) ==> Touches(r, Gate(m, phase), b))
  {
    var m := Span(size, blockOffset);
    var gate, next := Gate(m, phase), Gate(m, phase + 1);
    assert next == gate + m && gate % CACHE_LINE_SIZE == 0 by {
      assert Gate(m, 0) == 0 && Gate(m, 1) == m && Gate(m, 2) == 2 * m;
    }
    if b != next && Pulls(Plain(size, blockOffset, bufferSize), srcOffset, b, next) {
      PulledIsTouched(blockOffset + size, m, gate, b);
    }
  }

  lemma PulledIsTouched(w: int, m: int, gate: int, b: int)
    requires gate % CACHE_LINE_SIZE == 0 && m % CACHE_LINE_SIZE == 0 && b % CACHE_LINE_SIZE == 0
    requires w <= m < w + CACHE_LINE_SIZE && b < gate + m < b + w
    ensures gate <= b < gate + w
  {
    NextBlock(b, gate + m);
  }

  // ---- Progress

  /** The loop is at a gate that leads the list. */
  predicate InPhase(r: Request, srcOffset: int, m: int, blocks: seq<int>, phase: nat) {
    phase <= 2 && Fits(r, Gate(m, phase)) && Leads(r, srcOffset, blocks, Gate(m, phase))
  }

  function Weigh(n: nat, last: nat, phase: nat, i: nat): int {
    n * (3 * last + 2 - phase) + i
  }

  /** What is left to do in a phase: first the last block's way to the front, then the phases, then the gate's. */
  function Distance(m: int, last: int, blocks: seq<int>, phase: nat): int
    requires phase <= 2 && Gate(m, phase) in blocks && last in blocks
  {
    Weigh(|blocks|, IndexOf(blocks, last), phase, IndexOf(blocks, Gate(m, phase)))
  }

  lemma DistanceShrinks(n: nat, last: nat, last': nat, phase: nat, phase': nat, i: nat, i': nat)
    requires i < n && i' < n && phase <= 2 && phase' <= 2
    requires last' < last || (last' == last && (phase' > phase || (phase' == phase && i' < i)))
    ensures 0 <= Weigh(n, last', phase', i') < Weigh(n, last, phase, i)
  {
    var x, x' := 3 * last + 2 - phase, 3 * last' + 2 - phase';
    NotNegative(n, x');
    if x' < x {
      NotNegative(n, x - x' - 1);
      assert n * (x - x' - 1) == n * x - n * x' - n;
    }
  }

  lemma NotNegative(n: nat, x: nat)
    ensures n * x >= 0
  {
  }

  /** What is fixed while the loop runs. */
  ghost predicate Setting(size: int, blockOffset: int, bufferSize: nat, srcOffset: int) {
    && SizeRule(size, bufferSize) && InLine(blockOffset)
    && LoopEnds(size, blockOffset, bufferSize) && Covers(size, blockOffset, bufferSize, srcOffset)
  }

  /** A failed round that does not pick the gate brings it forward. */
  lemma RoundPastOthers(size: int, blockOffset: int, bufferSize: nat, srcOffset: int,
                        blocks: seq<int>, next: seq<int>, shuffle: Shuffle, phase: nat)
    requires Setting(size, blockOffset, bufferSize, srcOffset)
    requires FailedRound(Plain(size, blockOffset, bufferSize), srcOffset, blocks, next, shuffle)
    requires InPhase(Plain(size, blockOffset, bufferSize), srcOffset, Span(size, blockOffset), blocks, phase)
    requires blocks[FirstFit(Plain(size, blockOffset, bufferSize), blocks)] != Gate(Span(size, blockOffset), phase)
    ensures InPhase(Plain(size, blockOffset, bufferSize), srcOffset, Span(size, blockOffset), next, phase)
    ensures IndexOf(next, Gate(Span(size, blockOffset), phase)) < IndexOf(blocks, Gate(Span(size, blockOffset), phase))
  {
    LeaderMovesUp(Plain(size, blockOffset, bufferSize), srcOffset, blocks, next, shuffle, Gate(Span(size, blockOffset), phase));
  }

  /** A failed round that picks the gate opens the next one, unless the gate is at the front of the list. */
  lemma RoundAtGate(size: int, blockOffset: int, bufferSize: nat, srcOffset: int,
                    blocks: seq<int>, next: seq<int>, shuffle: Shuffle, phase: nat)
    requires Setting(size, blockOffset, bufferSize, srcOffset) && IsBlockList(blocks, bufferSize)
    requires FailedRound(Plain(size, blockOffset, bufferSize), srcOffset, blocks, next, shuffle) && phase <= 2
    requires blocks[FirstFit(Plain(size, blockOffset, bufferSize), blocks)] == Gate(Span(size, blockOffset), phase)
    requires Gate(Span(size, blockOffset), phase) != blocks[0]
    ensures phase < 2
    ensures InPhase(Plain(size, blockOffset, bufferSize), srcOffset, Span(size, blockOffset), next, phase + 1)
  {
    var r, m := Plain(size, blockOffset, bufferSize), Span(size, blockOffset);
    NextGateFits(size, blockOffset, bufferSize, srcOffset, phase);
    GateIsListed(size, blockOffset, bufferSize, blocks, phase + 1);
    GateTouches(size, blockOffset, bufferSize, srcOffset, phase, 0);
    forall b | b in blocks && b != Gate(m, phase + 1) && Pulls(r, srcOffset, b, Gate(m, phase + 1))
      ensures Touches(r, Gate(m, phase), b)
    {
      ListedIsBlock(b, bufferSize, blocks);
      GateTouches(size, blockOffset, bufferSize, srcOffset, phase, b);
    }
    NextLeads(r, srcOffset, blocks, next, shuffle, Gate(m, phase + 1));
  }

  /** The last block of the buffer is in every list, and no failed round moves it back. */
  lemma LastMovesUp(size: int, blockOffset: int, bufferSize: nat, srcOffset: int,
                    blocks: seq<int>, next: seq<int>, shuffle: Shuffle)
    requires Setting(size, blockOffset, bufferSize, srcOffset) && IsBlockList(blocks, bufferSize)
    requires FailedRound(Plain(size, blockOffset, bufferSize), srcOffset, blocks, next, shuffle)
    ensures LastBlock(bufferSize) in blocks && LastBlock(bufferSize) in next
    ensures IndexOf(next, LastBlock(bufferSize)) <= IndexOf(blocks, LastBlock(bufferSize))
    ensures blocks[FirstFit(Plain(size, blockOffset, bufferSize), blocks)] == blocks[0] ==>
              IndexOf(next, LastBlock(bufferSize)) < IndexOf(blocks, LastBlock(bufferSize))
  {
    BlockIsListed(LastBlock(bufferSize), bufferSize, blocks);
    forall b | b in blocks ensures !Pulls(Plain(size, blockOffset, bufferSize), srcOffset, b, LastBlock(bufferSize)) {
      LastIsUnpulled(size, blockOffset, bufferSize, srcOffset, b);
    }
    UnpulledMovesUp(Plain(size, blockOffset, bufferSize), srcOffset, blocks, next, shuffle, LastBlock(bufferSize));
  }

  /** The phase after a failed round. */
  function PhaseAfter(r: Request, m: int, blocks: seq<int>, phase: nat): nat
    requires FirstFit(r, blocks) < |blocks|
  {
    var block := blocks[FirstFit(r, blocks)];
    if block != Gate(m, phase) then phase else if block == blocks[0] then 0 else phase + 1
  }

  lemma RoundKeepsPhase(size: int, blockOffset: int, bufferSize: nat, srcOffset: int,
                        blocks: seq<int>, next: seq<int>, shuffle: Shuffle, phase: nat)
    requires Setting(size, blockOffset, bufferSize, srcOffset) && IsBlockList(blocks, bufferSize) && IsBlockList(next, bufferSize)
    requires FailedRound(Plain(size, blockOffset, bufferSize), srcOffset, blocks, next, shuffle)
    requires InPhase(Plain(size, blockOffset, bufferSize), srcOffset, Span(size, blockOffset), blocks, phase)
    ensures var r, m := Plain(size, blockOffset, bufferSize), Span(size, blockOffset);
            InPhase(r, srcOffset, m, next, PhaseAfter(r, m, blocks, phase))
  {
    var r, m := Plain(size, blockOffset, bufferSize), Span(size, blockOffset);
    var block := blocks[FirstFit(r, blocks)];
    if block != Gate(m, phase) {
      RoundPastOthers(size, blockOffset, bufferSize, srcOffset, blocks, next, shuffle, phase);
    } else if block == blocks[0] {
      ZeroLeads(size, blockOffset, bufferSize, srcOffset, next);
    } else {
      RoundAtGate(size, blockOffset, bufferSize, srcOffset, blocks, next, shuffle, phase);
    }
  }

  /** A failed round brings the last block forward, or keeps it and opens a gate, or brings the gate forward. */
  lemma RoundOrder(size: int, blockOffset: int, bufferSize: nat, srcOffset: int,
                   blocks: seq<int>, next: seq<int>, shuffle: Shuffle, phase: nat)
    requires Setting(size, blockOffset, bufferSize, srcOffset) && IsBlockList(blocks, bufferSize) && IsBlockList(next, bufferSize)
    requires FailedRound(Plain(size, blockOffset, bufferSize), srcOffset, blocks, next, shuffle)
    requires InPhase(Plain(size, blockOffset, bufferSize), srcOffset, Span(size, blockOffset), blocks, phase)
    ensures var r, m, last := Plain(size, blockOffset, bufferSize), Span(size, blockOffset), LastBlock(bufferSize);
            var phase' := PhaseAfter(r, m, blocks, phase);
            && last in blocks && last in next && Gate(m, phase) in blocks && phase' <= 2 && Gate(m, phase') in next
            && (IndexOf(next, last) < IndexOf(blocks, last)
                || (IndexOf(next, last) == IndexOf(blocks, last)
                    && (phase' > phase || (phase' == phase && IndexOf(next, Gate(m, phase)) < IndexOf(blocks, Gate(m, phase))))))
  {
    var r, m := Plain(size, blockOffset, bufferSize), Span(size, blockOffset);
    LastMovesUp(size, blockOffset, bufferSize, srcOffset, blocks, next, shuffle);
    RoundKeepsPhase(size, blockOffset, bufferSize, srcOffset, blocks, next, shuffle, phase);
    if blocks[FirstFit(r, blocks)] != Gate(m, phase) {
      RoundPastOthers(size, blockOffset, bufferSize, srcOffset, blocks, next, shuffle, phase);
    }
  }

  /** So every failed round brings the loop closer to its end. */
  lemma RoundProgresses(size: int, blockOffset: int, bufferSize: nat, srcOffset: int,
                        blocks: seq<int>, next: seq<int>, shuffle: Shuffle, phase: nat)
    requires Setting(size, blockOffset, bufferSize, srcOffset) && IsBlockList(blocks, bufferSize) && IsBlockList(next, bufferSize)
    requires FailedRound(Plain(size, blockOffset, bufferSize), srcOffset, blocks, next, shuffle)
    requires InPhase(Plain(size, blockOffset, bufferSize), srcOffset, Span(size, blockOffset), blocks, phase)
    ensures var r, m, last := Plain(size, blockOffset, bufferSize), Span(size, blockOffset), LastBlock(bufferSize);
            && InPhase(r, srcOffset, m, next, PhaseAfter(r, m, blocks, phase))
            && last in blocks && last in next
            && 0 <= Distance(m, last, next, PhaseAfter(r, m, blocks, phase)) < Distance(m, last, blocks, phase)
  {
    var r, m, last := Plain(size, blockOffset, bufferSize), Span(size, blockOffset), LastBlock(bufferSize);
    var phase' := PhaseAfter(r, m, blocks, phase);
    RoundOrder(size, blockOffset, bufferSize, srcOffset, blocks, next, shuffle, phase);
    RoundKeepsPhase(size, blockOffset, bufferSize, srcOffset, blocks, next, shuffle, phase);
    SameLength(blocks, next);
    DistanceShrinks(|blocks|, IndexOf(blocks, last), IndexOf(next, last), phase, phase',
                    IndexOf(blocks, Gate(m, phase)), IndexOf(next, Gate(m, phase')));
  }

  /** All lists of the failed rounds are block lists. */
  lemma {:induction false} RoundsKeepBlocks(r: Request, srcOffset: int, lists: seq<seq<int>>, rng: Rng, bufferSize: nat, j: nat)
    requires FailedRounds(r, srcOffset, lists, rng) && AllPermute(rng) && j < |lists| && IsBlockList(lists[0], bufferSize)
    ensures IsBlockList(lists[j], bufferSize)
    decreases j
  {
    if j > 0 {
      RoundsKeepBlocks(r, srcOffset, lists, rng, bufferSize, j - 1);
      assert FailedRound(r, srcOffset, lists[j - 1], lists[j - 1 + 1], rng(j - 1));
      NextListPermutes(r, lists[j - 1], rng(j - 1));
    }
  }

  lemma {:induction false} RoundsAreBounded(size: int, blockOffset: int, bufferSize: nat, srcOffset: int,
                                            lists: seq<seq<int>>, rng: Rng, j: nat, phase: nat)
    requires Setting(size, blockOffset, bufferSize, srcOffset) && AllPermute(rng)
    requires FailedRounds(Plain(size, blockOffset, bufferSize), srcOffset, lists, rng) && IsBlockList(lists[0], bufferSize)
    requires j < |lists|
    requires InPhase(Plain(size, blockOffset, bufferSize), srcOffset, Span(size, blockOffset), lists[j], phase)
    ensures LastBlock(bufferSize) in lists[j]
    ensures |lists| - 1 - j <= Distance(Span(size, blockOffset), LastBlock(bufferSize), lists[j], phase)
    decreases |lists| - j
  {
    var r, m, last := Plain(size, blockOffset, bufferSize), Span(size, blockOffset), LastBlock(bufferSize);
    RoundsKeepBlocks(r, srcOffset, lists, rng, bufferSize, j);
    BlockIsListed(last, bufferSize, lists[j]);
    if j + 1 < |lists| {
      RoundsKeepBlocks(r, srcOffset, lists, rng, bufferSize, j + 1);
      assert FailedRound(r, srcOffset, lists[j], lists[j + 1], rng(j));
      RoundProgresses(size, blockOffset, bufferSize, srcOffset, lists[j], lists[j + 1], rng(j), phase);
      RoundsAreBounded(size, blockOffset, bufferSize, srcOffset, lists, rng, j + 1, PhaseAfter(r, m, lists[j], phase));
    } else {
      NotNegative(|lists[j]|, 3 * IndexOf(lists[j], last) + 2 - phase);
    }
  }

  // ---- It ends

  /** Three times the square of the number of blocks. */
  function MaxRounds(n: nat): (rounds: nat)
    ensures rounds >= n
  {
    NotNegative(3, n);
    NotNegative(3 * n, n);
    if n > 0 then NotNegative(n, 3 * n - 1); 3 * n * n else 0
  }

  lemma DistanceIsBounded(n: nat, last: nat, i: nat)
    requires last < n && i < n
    ensures Weigh(n, last, 0, i) < MaxRounds(n)
  {
    NotNegative(n, 3 * n - 1 - (3 * last + 2));
  }

  lemma DistanceAtStart(m: int, last: int, blocks: seq<int>)
    requires last in blocks && 0 in blocks
    ensures Gate(m, 0) == 0 && Distance(m, last, blocks, 0) < MaxRounds(|blocks|)
  {
    DistanceIsBounded(|blocks|, IndexOf(blocks, last), IndexOf(blocks, 0));
  }

  lemma CoveringLoopIsBounded(size: int, blockOffset: int, bufferSize: nat, srcOffset: int, lists: seq<seq<int>>, rng: Rng)
    requires Setting(size, blockOffset, bufferSize, srcOffset) && AllPermute(rng)
    requires FailedRounds(Plain(size, blockOffset, bufferSize), srcOffset, lists, rng) && IsBlockList(lists[0], bufferSize)
    ensures |lists| <= MaxRounds(|lists[0]|)
  {
    ZeroLeads(size, blockOffset, bufferSize, srcOffset, lists[0]);
    BlockIsListed(LastBlock(bufferSize), bufferSize, lists[0]);
    DistanceAtStart(Span(size, blockOffset), LastBlock(bufferSize), lists[0]);
    RoundsAreBounded(size, blockOffset, bufferSize, srcOffset, lists, rng, 0, 0);
  }

  lemma ZeroIsStable(size: int, blockOffset: int, bufferSize: nat, srcOffset: int)
    requires SizeRule(size, bufferSize) && InLine(blockOffset) && !CheckOverlap(srcOffset, blockOffset, size)
    ensures Stable(Plain(size, blockOffset, bufferSize), srcOffset, 0)
  {
  }

  /** If the condition holds, at most as many rounds fail as three times the square of the number of blocks,
      whatever the source, the list and the shuffles. */
  lemma LoopIsBounded(size: int, blockOffset: int, bufferSize: nat, srcOffset: int, lists: seq<seq<int>>, rng: Rng)
    requires SizeRule(size, bufferSize) && InLine(blockOffset) && LoopEnds(size, blockOffset, bufferSize)
    requires 0 <= srcOffset && srcOffset + size <= bufferSize && AllPermute(rng)
    requires FailedRounds(Plain(size, blockOffset, bufferSize), srcOffset, lists, rng) && IsBlockList(lists[0], bufferSize)
    ensures |lists| <= MaxRounds(|lists[0]|)
  {
    if CheckOverlap(srcOffset, blockOffset, size) {
      CoveringLoopIsBounded(size, blockOffset, bufferSize, srcOffset, lists, rng);
    } else {
      ZeroIsStable(size, blockOffset, bufferSize, srcOffset);
      BlockIsListed(0, bufferSize, lists[0]);
      RetryEnds(Plain(size, blockOffset, bufferSize), srcOffset, lists, rng, 0);
    }
  }

  // ---- It does not end

  const IDENTITY: Rng := (k: nat) => (s: seq<int>) => s

  lemma {:induction false} AllTouched(r: Request, block: int, blocks: seq<int>)
    requires forall i :: 0 <= i < |blocks| ==> Touches(r, block, blocks[i])
    ensures Others(r, block, blocks) == [] && Accessed(r, block, blocks) == blocks
    decreases |blocks|
  {
    if blocks != [] {
      AllTouched(r, block, blocks[1..]);
    }
  }

  lemma {:induction false} NoneTouched(r: Request, block: int, blocks: seq<int>)
    requires forall i :: 0 <= i < |blocks| ==> !Touches(r, block, blocks[i])
    ensures Others(r, block, blocks) == blocks && Accessed(r, block, blocks) == []
    decreases |blocks|
  {
    if blocks != [] {
      NoneTouched(r, block, blocks[1..]);
    }
  }

  /** A pick that takes exactly the middle part of a list to its back. */
  lemma PickMiddle(r: Request, front: seq<int>, middle: seq<int>, back: seq<int>)
    requires front != [] && middle != []
    requires (forall i :: 0 <= i < |front| ==> !Fits(r, front[i])) && Fits(r, middle[0])
    requires forall i :: 0 <= i < |front| ==> !Touches(r, middle[0], front[i])
    requires forall i :: 0 <= i < |middle| ==> Touches(r, middle[0], middle[i])
    requires forall i :: 0 <= i < |back| ==> !Touches(r, middle[0], back[i])
    ensures var blocks := front + middle + back;
            && FirstFit(r, blocks) == |front| && blocks[|front|] == middle[0]
            && NextList(r, blocks, IDENTITY(0)) == front + back + middle
  {
    var blocks := front + middle + back;
    assert forall i :: 0 <= i < |front| ==> blocks[i] == front[i];
    assert blocks[|front|] == middle[0];
    assert FirstFit(r, blocks) == |front|;
    assert middle[0] != blocks[0];
    PartitionMiddle(r, middle[0], front, middle, back);
  }

  lemma PartitionMiddle(r: Request, block: int, front: seq<int>, middle: seq<int>, back: seq<int>)
    requires forall i :: 0 <= i < |front| ==> !Touches(r, block, front[i])
    requires forall i :: 0 <= i < |middle| ==> Touches(r, block, middle[i])
    requires forall i :: 0 <= i < |back| ==> !Touches(r, block, back[i])
    ensures Others(r, block, front + middle + back) == front + back
    ensures Accessed(r, block, front + middle + back) == middle
  {
    PartitionAppend(r, block, front + middle, back);
    PartitionBack(r, block, front, middle);
    NoneTouched(r, block, back);
    assert front + back == front + [] + back && middle + [] == middle;
  }

  lemma PartitionBack(r: Request, block: int, front: seq<int>, middle: seq<int>)
    requires forall i :: 0 <= i < |front| ==> !Touches(r, block, front[i])
    requires forall i :: 0 <= i < |middle| ==> Touches(r, block, middle[i])
    ensures Others(r, block, front + middle) == front && Accessed(r, block, front + middle) == middle
  {
    PartitionAppend(r, block, front, middle);
    NoneTouched(r, block, front);
    AllTouched(r, block, middle);
    assert front + [] == front && [] + middle == middle;
  }

  /** The block starts from `i` on, below `j`, in order. */
  function BlocksFrom(i: nat, j: nat): (blocks: seq<int>)
    requires i <= j
    ensures |blocks| == j - i && forall k :: 0 <= k < |blocks| ==> blocks[k] == CACHE_LINE_SIZE * (i + k)
  {
    seq(j - i, k requires 0 <= k < j - i => CACHE_LINE_SIZE * (i + k))
  }

  /** The number of blocks that an operation touches, and of those in the buffer. */
  function SpanBlocks(size: int, blockOffset: int): nat
    requires size >= 0 && blockOffset >= 0
  {
    Span(size, blockOffset) / CACHE_LINE_SIZE
  }

  function BufferBlocks(bufferSize: nat): nat {
    (bufferSize + CACHE_LINE_SIZE - 1) / CACHE_LINE_SIZE
  }

  /** Within the sizing rule, when the condition fails: operations on block zero and on the block `Span` touch
      all blocks with room for one, and there are further blocks. */
  lemma Cramped(size: int, blockOffset: int, bufferSize: nat)
    requires SizeRule(size, bufferSize) && InLine(blockOffset) && !LoopEnds(size, blockOffset, bufferSize)
    ensures var k := SpanBlocks(size, blockOffset);
            && Span(size, blockOffset) == CACHE_LINE_SIZE * k && 1 <= k && 2 * k < BufferBlocks(bufferSize)
  {
    SpanTwice(size, blockOffset);
  }

  /** The list that never leads to a clear block: it alternates between two halves, behind blocks without room. */
  function Alternating(size: int, blockOffset: int, bufferSize: nat, i: nat): seq<int>
    requires SizeRule(size, bufferSize) && InLine(blockOffset) && !LoopEnds(size, blockOffset, bufferSize)
  {
    Cramped(size, blockOffset, bufferSize);
    var k, n := SpanBlocks(size, blockOffset), BufferBlocks(bufferSize);
    if i % 2 == 0 then BlocksFrom(2 * k, n) + BlocksFrom(0, k) + BlocksFrom(k, 2 * k)
    else BlocksFrom(2 * k, n) + BlocksFrom(k, 2 * k) + BlocksFrom(0, k)
  }

  /** A source that overlaps operations on block zero and on the block `Span`. */
  function Between(size: int, blockOffset: int): int
    requires size >= 0 && blockOffset >= 0
  {
    Reach(size, blockOffset) - 1
  }

  lemma AlternatingRound(size: int, blockOffset: int, bufferSize: nat, i: nat)
    requires SizeRule(size, bufferSize) && InLine(blockOffset) && !LoopEnds(size, blockOffset, bufferSize)
    ensures FailedRound(Plain(size, blockOffset, bufferSize), Between(size, blockOffset),
                        Alternating(size, blockOffset, bufferSize, i), Alternating(size, blockOffset, bufferSize, i + 1),
                        IDENTITY(i))
  {
    Cramped(size, blockOffset, bufferSize);
    SpanTwice(size, blockOffset);
    var r, k, n := Plain(size, blockOffset, bufferSize), SpanBlocks(size, blockOffset), BufferBlocks(bufferSize);
    assert IDENTITY(i) == IDENTITY(0) && (i + 1) % 2 == 1 - i % 2;
    if i % 2 == 0 {
      PickMiddle(r, BlocksFrom(2 * k, n), BlocksFrom(0, k), BlocksFrom(k, 2 * k));
    } else {
      PickMiddle(r, BlocksFrom(2 * k, n), BlocksFrom(k, 2 * k), BlocksFrom(0, k));
    }
  }

  lemma AlternatingIsValid(size: int, blockOffset: int, bufferSize: nat)
    requires SizeRule(size, bufferSize) && InLine(blockOffset) && !LoopEnds(size, blockOffset, bufferSize)
    ensures IsBlockList(Alternating(size, blockOffset, bufferSize, 0), bufferSize)
  {
    Cramped(size, blockOffset, bufferSize);
    var k, n := SpanBlocks(size, blockOffset), BufferBlocks(bufferSize);
    assert AllBlocks(bufferSize) == BlocksFrom(0, k) + BlocksFrom(k, 2 * k) + BlocksFrom(2 * k, n);
  }

  /** If the condition fails, so does the loop: there is a source, a block list and shuffles for which any number
      of rounds fails. */
  lemma LoopNeedNotEnd(size: int, blockOffset: int, bufferSize: nat, rounds: nat) returns (lists: seq<seq<int>>)
    requires SizeRule(size, bufferSize) && InLine(blockOffset) && !LoopEnds(size, blockOffset, bufferSize)
    ensures var srcOffset := Between(size, blockOffset);
            && 0 <= srcOffset && srcOffset + size <= bufferSize && AllPermute(IDENTITY)
            && |lists| == rounds + 1 && IsBlockList(lists[0], bufferSize)
            && FailedRounds(Plain(size, blockOffset, bufferSize), srcOffset, lists, IDENTITY)
  {
    AlternatingIsValid(size, blockOffset, bufferSize);
    lists := seq(rounds + 1, (i: nat) => Alternating(size, blockOffset, bufferSize, i));
    forall i: nat | i + 1 < |lists|
      ensures FailedRound(Plain(size, blockOffset, bufferSize), Between(size, blockOffset), lists[i], lists[i + 1], IDENTITY(i))
    {
      AlternatingRound(size, blockOffset, bufferSize, i);
    }
  }

  // ---- Both together

  /** Some number of rounds is enough for every source, list and shuffles. */
  ghost predicate AlwaysEnds(size: int, blockOffset: int, bufferSize: nat) {
    exists bound: nat :: EndsWithin(size, blockOffset, bufferSize, bound)
  }

  ghost predicate EndsWithin(size: int, blockOffset: int, bufferSize: nat, bound: nat) {
    forall srcOffset: int, lists: seq<seq<int>>, rng: Rng ::
      0 <= srcOffset && srcOffset + size <= bufferSize && AllPermute(rng)
      && FailedRounds(Plain(size, blockOffset, bufferSize), srcOffset, lists, rng) && IsBlockList(lists[0], bufferSize)
      ==> |lists| <= bound
  }

  /** Within the sizing rule, the loop always ends if and only if the condition holds. */
  lemma AlwaysEndsIff(size: int, blockOffset: int, bufferSize: nat)
    requires SizeRule(size, bufferSize) && InLine(blockOffset)
    ensures AlwaysEnds(size, blockOffset, bufferSize) <==> LoopEnds(size, blockOffset, bufferSize)
  {
    if LoopEnds(size, blockOffset, bufferSize) {
      var bound := MaxRounds(|AllBlocks(bufferSize)|);
      forall srcOffset: int, lists: seq<seq<int>>, rng: Rng |
        0 <= srcOffset && srcOffset + size <= bufferSize && AllPermute(rng)
        && FailedRounds(Plain(size, blockOffset, bufferSize), srcOffset, lists, rng) && IsBlockList(lists[0], bufferSize)
        ensures |lists| <= bound
      {
        LoopIsBounded(size, blockOffset, bufferSize, srcOffset, lists, rng);
        SameLength(lists[0], AllBlocks(bufferSize));
      }
      assert EndsWithin(size, blockOffset, bufferSize, bound);
    } else if AlwaysEnds(size, blockOffset, bufferSize) {
      var bound: nat :| EndsWithin(size, blockOffset, bufferSize, bound);
      var lists := LoopNeedNotEnd(size, blockOffset, bufferSize, bound);
      assert false;
    }
  }

  /** The sizing rule does not imply the condition. */
  lemma RuleIsNotEnough()
    ensures SizeRule(259, 969) && InLine(62) && !LoopEnds(259, 62, 969) && !AlwaysEnds(259, 62, 969)
  {
    assert RoundUp(321) == 384 && RoundUp(384 + 321) == 768;
    AlwaysEndsIff(259, 62, 969);
  }
}
