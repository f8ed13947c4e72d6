/**
  What a pick does to the order of a block list: a block that is not touched comes forward, and everything in
  front of it was in front of it before.
 */
module BlockOrder {
  import opened BlockLru

  /** Where the list has a block for the first time. */
  function IndexOf(blocks: seq<int>, g: int): (i: nat)
    requires g in blocks
    ensures i < |blocks| && blocks[i] == g && g !in blocks[..i]
  {
    if blocks[0] == g then 0
    else
      assert blocks == [blocks[0]] + blocks[1..];
      var i := 1 + IndexOf(blocks[1..], g);
      assert blocks[..i] == [blocks[0]] + blocks[1..][..i - 1];
      i
  }

  lemma {:induction false} IndexAtMost(blocks: seq<int>, g: int, i: nat)
    requires i < |blocks| && blocks[i] == g
    ensures g in blocks && IndexOf(blocks, g) <= i
    decreases i
  {
    if blocks[0] != g {
      IndexAtMost(blocks[1..], g, i - 1);
    }
  }

  /** The part of a list in front of a block. */
  function Before(blocks: seq<int>, g: int): (front: seq<int>)
    requires g in blocks
    ensures |front| == IndexOf(blocks, g) && g !in front
  {
    blocks[..IndexOf(blocks, g)]
  }

  lemma {:induction false} OthersAre(r: Request, block: int, blocks: seq<int>)
    ensures |Others(r, block, blocks)| <= |blocks|
    ensures forall b :: b in Others(r, block, blocks) <==> b in blocks && !Touches(r, block, b)
    ensures block in blocks && Touches(r, block, block) ==> |Others(r, block, blocks)| < |blocks|
    decreases |blocks|
  {
    if blocks != [] {
      OthersAre(r, block, blocks[1..]);
      assert blocks == [blocks[0]] + blocks[1..];
    }
  }

  /** A pick in front of a block that it does not touch, on the slow path: what is now in front of that block
      is what was there and is not touched either. */
  lemma SlowPick(r: Request, blocks: seq<int>, shuffle: Shuffle, g: int)
    requires g in blocks
    requires FirstFit(r, blocks) < |blocks| && blocks[FirstFit(r, blocks)] != blocks[0]
    requires !Touches(r, blocks[FirstFit(r, blocks)], g)
    ensures g in NextList(r, blocks, shuffle)
    ensures Before(NextList(r, blocks, shuffle), g) == Others(r, blocks[FirstFit(r, blocks)], Before(blocks, g))
  {
    var block := blocks[FirstFit(r, blocks)];
    var pre, post := Before(blocks, g), blocks[IndexOf(blocks, g) + 1..];
    assert blocks == pre + ([g] + post);
    OthersKeepFront(r, block, pre, g, post, shuffle(Accessed(r, block, blocks)));
  }

  lemma OthersKeepFront(r: Request, block: int, pre: seq<int>, g: int, post: seq<int>, back: seq<int>)
    requires g !in pre && !Touches(r, block, g)
    ensures var next := Others(r, block, pre + ([g] + post)) + back;
            g in next && Before(next, g) == Others(r, block, pre)
  {
    var front, rest := Others(r, block, pre), Others(r, block, post);
    OthersAround(r, block, pre, g, post);
    OthersAre(r, block, pre);
    assert (front + ([g] + rest)) + back == front + ([g] + (rest + back));
    FirstOccurrence(front, g, rest + back);
  }

  lemma OthersAround(r: Request, block: int, pre: seq<int>, g: int, post: seq<int>)
    requires !Touches(r, block, g)
    ensures Others(r, block, pre + ([g] + post)) == Others(r, block, pre) + ([g] + Others(r, block, post))
  {
    PartitionAppend(r, block, pre, [g] + post);
    PartitionAppend(r, block, [g], post);
    assert Others(r, block, [g]) == [g];
  }

  lemma FirstOccurrence(front: seq<int>, g: int, rest: seq<int>)
    requires g !in front
    ensures var blocks := front + ([g] + rest); g in blocks && Before(blocks, g) == front
  {
    var blocks := front + ([g] + rest);
    assert blocks[|front|] == g;
    IndexAtMost(blocks, g, |front|);
    assert forall i :: 0 <= i < |front| ==> blocks[i] == front[i];
  }

  /** On the fast path every other block moves up by one. */
  lemma FastPick(r: Request, blocks: seq<int>, shuffle: Shuffle, g: int)
    requires g in blocks && g != blocks[0]
    requires FirstFit(r, blocks) < |blocks| && blocks[FirstFit(r, blocks)] == blocks[0]
    ensures g in NextList(r, blocks, shuffle)
    ensures Before(NextList(r, blocks, shuffle), g) == Before(blocks, g)[1..]
  {
    var pre, post := Before(blocks, g), blocks[IndexOf(blocks, g) + 1..];
    assert blocks == pre + ([g] + post);
    RotationKeepsFront(pre, g, post);
  }

  lemma RotationKeepsFront(pre: seq<int>, g: int, post: seq<int>)
    requires pre != [] && g !in pre
    ensures var next := (pre + ([g] + post))[1..] + [pre[0]];
            g in next && Before(next, g) == pre[1..]
  {
    assert (pre + ([g] + post))[1..] + [pre[0]] == pre[1..] + ([g] + (post + [pre[0]]));
    FirstOccurrence(pre[1..], g, post + [pre[0]]);
  }

  /** Whichever path it takes, a pick brings a block that is behind it and that it does not touch forward, and
      nothing new in front of it. On the slow path every operation on the buffer touches the block that it picks
      (`SlowPickTouches`). */
  lemma UntouchedMovesUp(r: Request, blocks: seq<int>, shuffle: Shuffle, g: int)
    requires g in blocks
    requires FirstFit(r, blocks) < IndexOf(blocks, g) && !Touches(r, blocks[FirstFit(r, blocks)], g)
    requires blocks[FirstFit(r, blocks)] == blocks[0] || r.blockOffset + r.size >= 1
    ensures g in NextList(r, blocks, shuffle)
    ensures IndexOf(NextList(r, blocks, shuffle), g) < IndexOf(blocks, g)
    ensures forall b :: b in Before(NextList(r, blocks, shuffle), g) ==> b in Before(blocks, g)
  {
    var block := blocks[FirstFit(r, blocks)];
    if block == blocks[0] {
      FastPick(r, blocks, shuffle, g);
    } else {
      SlowPick(r, blocks, shuffle, g);
      OthersAre(r, block, Before(blocks, g));
      assert Before(blocks, g)[FirstFit(r, blocks)] == block;
    }
  }

  // ---- Reuse

  /** The lists before, between and after the picks of a run of operations. */
  ghost predicate IsRun(requests: seq<Request>, lists: seq<seq<int>>, rng: Rng, bufferSize: nat) {
    && |lists| == |requests| + 1
    && forall k: nat {:trigger rng(k)} :: k < |requests| ==> IsPick(requests[k], lists[k], lists[k + 1], rng(k), bufferSize)
  }

  /** An operation on the buffer. One of size zero needs no margins: the destination is where the source is. */
  predicate IsOperation(r: Request, bufferSize: nat) {
    && r.size >= 0 && r.blockOffset >= 0 && r.bufferSize == bufferSize
    && (r.size == 0 ==> r.leftMargin <= 0 && r.rightMargin <= 0)
  }

  ghost predicate IsPick(r: Request, blocks: seq<int>, next: seq<int>, shuffle: Shuffle, bufferSize: nat) {
    IsOperation(r, bufferSize) && FirstFit(r, blocks) < |blocks| && next == NextList(r, blocks, shuffle)
  }

  function Pick(r: Request, blocks: seq<int>): (block: int)
    requires FirstFit(r, blocks) < |blocks|
  {
    blocks[FirstFit(r, blocks)]
  }

  lemma {:induction false} RunKeepsBlocks(requests: seq<Request>, lists: seq<seq<int>>, rng: Rng, bufferSize: nat, k: nat)
    requires IsRun(requests, lists, rng, bufferSize) && AllPermute(rng) && k < |lists|
    ensures multiset(lists[k]) == multiset(lists[0])
    decreases k
  {
    if k > 0 {
      RunKeepsBlocks(requests, lists, rng, bufferSize, k - 1);
      assert IsPick(requests[k - 1], lists[k - 1], lists[k - 1 + 1], rng(k - 1), bufferSize);
      NextListPermutes(requests[k - 1], lists[k - 1], rng(k - 1));
    }
  }

  lemma {:induction false} AscendingOnce(blocks: seq<int>, b: int)
    requires forall i, j :: 0 <= i < j < |blocks| ==> blocks[i] < blocks[j]
    ensures multiset(blocks)[b] <= 1
    decreases |blocks|
  {
    if blocks != [] {
      assert blocks == [blocks[0]] + blocks[1..];
      AscendingOnce(blocks[1..], b);
      assert b == blocks[0] ==> b !in blocks[1..];
    }
  }

  lemma FrontIsOnce(blocks: seq<int>, bufferSize: nat)
    requires IsBlockList(blocks, bufferSize) && blocks != []
    ensures blocks[0] !in blocks[1..]
  {
    AscendingOnce(AllBlocks(bufferSize), blocks[0]);
    assert blocks == [blocks[0]] + blocks[1..];
  }

  /** An operation takes the slow path only if it touches its block: one of size zero at the start of its line
      fits on every block. */
  lemma SlowPickTouches(r: Request, blocks: seq<int>, bufferSize: nat)
    requires IsOperation(r, bufferSize) && IsBlockList(blocks, bufferSize)
    requires FirstFit(r, blocks) < |blocks| && Pick(r, blocks) != blocks[0]
    ensures Touches(r, Pick(r, blocks), Pick(r, blocks))
  {
    assert !Fits(r, blocks[0]);
    assert blocks[0] in multiset(blocks);
    assert blocks[0] in AllBlocks(bufferSize);
  }

  /** A picked block goes behind every other block that the operation does not touch. */
  lemma PickGoesBehind(r: Request, blocks: seq<int>, next: seq<int>, shuffle: Shuffle, bufferSize: nat, g: int)
    requires IsPick(r, blocks, next, shuffle, bufferSize) && IsBlockList(blocks, bufferSize)
    requires g in blocks && Pick(r, blocks) != g && !Touches(r, Pick(r, blocks), g)
    ensures g in next && Pick(r, blocks) !in Before(next, g)
  {
    var block := Pick(r, blocks);
    if block == blocks[0] {
      FrontIsOnce(blocks, bufferSize);
      FastPick(r, blocks, shuffle, g);
      assert forall b :: b in Before(blocks, g)[1..] ==> b in blocks[1..];
    } else {
      SlowPickTouches(r, blocks, bufferSize);
      SlowPick(r, blocks, shuffle, g);
      OthersAre(r, block, Before(blocks, g));
    }
  }

  /** And stays behind those that are neither picked nor touched later. */
  lemma StaysBehind(r: Request, blocks: seq<int>, next: seq<int>, shuffle: Shuffle, bufferSize: nat, g: int, b: int)
    requires IsPick(r, blocks, next, shuffle, bufferSize)
    requires g in blocks && Pick(r, blocks) != g && !Touches(r, Pick(r, blocks), g) && b !in Before(blocks, g)
    ensures g in next && b !in Before(next, g)
  {
    if Pick(r, blocks) == blocks[0] {
      FastPick(r, blocks, shuffle, g);
    } else {
      SlowPick(r, blocks, shuffle, g);
      OthersAre(r, Pick(r, blocks), Before(blocks, g));
    }
  }

  /** None of the operations `i` to `j` picks or touches the block. */
  predicate Unused(requests: seq<Request>, lists: seq<seq<int>>, i: nat, j: nat, g: int)
    requires i <= j <= |requests| < |lists|
  {
    forall k :: i <= k < j ==>
      && FirstFit(requests[k], lists[k]) < |lists[k]|
      && Pick(requests[k], lists[k]) != g && !Touches(requests[k], Pick(requests[k], lists[k]), g)
  }

  lemma UnusedOnce(requests: seq<Request>, lists: seq<seq<int>>, rng: Rng, bufferSize: nat, i: nat, g: int)
    requires IsRun(requests, lists, rng, bufferSize) && AllPermute(rng) && IsBlockList(lists[0], bufferSize)
    requires i < |requests| && g in lists[0] && Unused(requests, lists, i, i + 1, g)
    ensures FirstFit(requests[i], lists[i]) < |lists[i]|
    ensures g in lists[i + 1] && Pick(requests[i], lists[i]) !in Before(lists[i + 1], g)
  {
    assert IsPick(requests[i], lists[i], lists[i + 1], rng(i), bufferSize);
    assert g in multiset(lists[i]) by {
      RunKeepsBlocks(requests, lists, rng, bufferSize, i);
    }
    assert IsBlockList(lists[i], bufferSize) by {
      RunKeepsBlocks(requests, lists, rng, bufferSize, i);
    }
    PickGoesBehind(requests[i], lists[i], lists[i + 1], rng(i), bufferSize, g);
  }

  lemma {:induction false} UnusedIsAhead(requests: seq<Request>, lists: seq<seq<int>>, rng: Rng, bufferSize: nat,
                                         i: nat, j: nat, g: int, b: int)
    requires IsRun(requests, lists, rng, bufferSize) && i <= j <= |requests| && Unused(requests, lists, i, j, g)
    requires g in lists[i] && b !in Before(lists[i], g)
    ensures g in lists[j] && b !in Before(lists[j], g)
    decreases j
  {
    if i < j {
      UnusedIsAhead(requests, lists, rng, bufferSize, i, j - 1, g, b);
      assert IsPick(requests[j - 1], lists[j - 1], lists[j - 1 + 1], rng(j - 1), bufferSize);
      StaysBehind(requests[j - 1], lists[j - 1], lists[j], rng(j - 1), bufferSize, g, b);
    }
  }

  lemma FirstFitIsAhead(r: Request, blocks: seq<int>, g: int)
    requires g in blocks && Fits(r, g) && FirstFit(r, blocks) < |blocks| && Pick(r, blocks) != g
    ensures Pick(r, blocks) in Before(blocks, g)
  {
    assert Before(blocks, g)[FirstFit(r, blocks)] == Pick(r, blocks);
  }

  /** A block is used again only after all others have been on which the operation fits: between two operations
      that pick the same block, some operation picks or touches each of them. This holds for every run of
      operations on the buffer, whatever their sizes, zero included, their offsets and their margins. */
  lemma ReusedOnlyAfterOthers(requests: seq<Request>, lists: seq<seq<int>>, rng: Rng, bufferSize: nat,
                              i: nat, j: nat, g: int)
    requires IsRun(requests, lists, rng, bufferSize) && AllPermute(rng) && IsBlockList(lists[0], bufferSize)
    requires i < j < |requests| && g in lists[0] && Fits(requests[j], g)
    requires FirstFit(requests[i], lists[i]) < |lists[i]| && FirstFit(requests[j], lists[j]) < |lists[j]|
    requires Pick(requests[j], lists[j]) == Pick(requests[i], lists[i]) != g
    ensures !Unused(requests, lists, i, j, g)
  {
    if Unused(requests, lists, i, j, g) {
      UnusedOnce(requests, lists, rng, bufferSize, i, g);
      UnusedIsAhead(requests, lists, rng, bufferSize, i + 1, j, g, Pick(requests[i], lists[i]));
      FirstFitIsAhead(requests[j], lists[j], g);
    }
  }
}
