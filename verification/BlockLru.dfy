/**
  The least-recently-used list of cache-line blocks from which the libc benchmarks take their offsets.

  Whatever the random number generator does when it shuffles the accessed blocks, it permutes them: a
  shuffle is any function that does.
 */
module BlockLru {

  const CACHE_LINE_SIZE: int := 64

  /** The starts of all cache-line blocks of a buffer. */
  function AllBlocks(bufferSize: nat): (blocks: seq<int>) {
    seq((bufferSize + CACHE_LINE_SIZE - 1) / CACHE_LINE_SIZE, i => CACHE_LINE_SIZE * i)
  }

  /** A block list holds every block of the buffer once. */
  predicate IsBlockList(blocks: seq<int>, bufferSize: nat) {
    multiset(blocks) == multiset(AllBlocks(bufferSize))
  }

  type Shuffle = seq<int> -> seq<int>

  ghost predicate Permutes(shuffle: Shuffle) {
    forall s: seq<int> :: multiset(shuffle(s)) == multiset(s)
  }

  /** The shuffles of a run, one after the other. */
  type Rng = nat -> Shuffle

  ghost predicate AllPermute(rng: Rng) {
    forall k: nat :: Permutes(rng(k))
  }

  /** What an operation asks of its block. */
  datatype Request = Request(size: int, blockOffset: int, bufferSize: nat, leftMargin: int, rightMargin: int)

  predicate Fits(r: Request, b: int) {
    b >= r.leftMargin && b + r.blockOffset + r.size + r.rightMargin <= r.bufferSize
  }

  predicate SomeFits(r: Request, blocks: seq<int>) {
    exists b :: b in blocks && Fits(r, b)
  }

  /** The index of the first block that fits, or the length. */
  function FirstFit(r: Request, blocks: seq<int>): (i: nat)
    ensures i <= |blocks|
    ensures i < |blocks| ==> Fits(r, blocks[i])
    ensures forall j :: 0 <= j < i ==> !Fits(r, blocks[j])
  {
    if blocks == [] || Fits(r, blocks[0]) then 0 else 1 + FirstFit(r, blocks[1..])
  }

  /** The blocks that an operation on `block` touches. */
  predicate Touches(r: Request, block: int, b: int) {
    block <= b < block + r.blockOffset + r.size
  }

  function Accessed(r: Request, block: int, blocks: seq<int>): seq<int> {
    if blocks == [] then []
    else (if Touches(r, block, blocks[0]) then [blocks[0]] else []) + Accessed(r, block, blocks[1..])
  }

  function Others(r: Request, block: int, blocks: seq<int>): seq<int> {
    if blocks == [] then []
    else (if Touches(r, block, blocks[0]) then [] else [blocks[0]]) + Others(r, block, blocks[1..])
  }

  /** The list after a block has been picked. A block at the front moves to the back alone, whatever else
      the operation touches; otherwise all touched blocks move there, shuffled, and the others keep their
      order. */
  function NextList(r: Request, blocks: seq<int>, shuffle: Shuffle): (next: seq<int>)
    requires FirstFit(r, blocks) < |blocks|
  {
    var block := blocks[FirstFit(r, blocks)];
    if block == blocks[0] then blocks[1..] + [block]
    else Others(r, block, blocks) + shuffle(Accessed(r, block, blocks))
  }

  // ---- Sequence facts

  lemma FitIsFound(r: Request, blocks: seq<int>)
    requires SomeFits(r, blocks)
    ensures FirstFit(r, blocks) < |blocks|
  {
  }

  lemma {:induction false} PartitionAppend(r: Request, block: int, a: seq<int>, b: seq<int>)
    ensures Accessed(r, block, a + b) == Accessed(r, block, a) + Accessed(r, block, b)
    ensures Others(r, block, a + b) == Others(r, block, a) + Others(r, block, b)
    decreases |a|
  {
    if a == [] {
      assert a + b == b;
    } else {
      assert (a + b)[1..] == a[1..] + b;
      PartitionAppend(r, block, a[1..], b);
    }
  }

  lemma {:induction false} PartitionKeeps(r: Request, block: int, blocks: seq<int>)
    ensures multiset(Others(r, block, blocks)) + multiset(Accessed(r, block, blocks)) == multiset(blocks)
    ensures |Others(r, block, blocks)| + |Accessed(r, block, blocks)| == |blocks|
    decreases |blocks|
  {
    if blocks != [] {
      PartitionKeeps(r, block, blocks[1..]);
      assert blocks == [blocks[0]] + blocks[1..];
    }
  }

  lemma RotationPermutes(blocks: seq<int>)
    requires blocks != []
    ensures multiset(blocks[1..] + [blocks[0]]) == multiset(blocks)
  {
    assert blocks == [blocks[0]] + blocks[1..];
  }

  /** A pick only rearranges the list. */
  lemma NextListPermutes(r: Request, blocks: seq<int>, shuffle: Shuffle)
    requires Permutes(shuffle) && FirstFit(r, blocks) < |blocks|
    ensures multiset(NextList(r, blocks, shuffle)) == multiset(blocks)
  {
    var block := blocks[FirstFit(r, blocks)];
    if block == blocks[0] {
      RotationPermutes(blocks);
    } else {
      PartitionKeeps(r, block, blocks);
    }
  }

  lemma {:induction false} OthersOfOthers(r: Request, block: int, blocks: seq<int>)
    ensures Others(r, block, Others(r, block, blocks)) == Others(r, block, blocks)
    decreases |blocks|
  {
    if blocks != [] {
      OthersOfOthers(r, block, blocks[1..]);
      var rest := Others(r, block, blocks[1..]);
      if Touches(r, block, blocks[0]) {
        assert Others(r, block, blocks) == rest;
      } else {
        PartitionAppend(r, block, [blocks[0]], rest);
        assert Others(r, block, [blocks[0]]) == [blocks[0]];
      }
    }
  }

  lemma {:induction false} AccessedAreTouched(r: Request, block: int, blocks: seq<int>)
    ensures forall b :: b in Accessed(r, block, blocks) ==> Touches(r, block, b)
    decreases |blocks|
  {
    if blocks != [] {
      AccessedAreTouched(r, block, blocks[1..]);
    }
  }

  lemma {:induction false} NoneLeft(r: Request, block: int, blocks: seq<int>)
    requires forall b :: b in blocks ==> Touches(r, block, b)
    ensures Others(r, block, blocks) == []
    decreases |blocks|
  {
    if blocks != [] {
      NoneLeft(r, block, blocks[1..]);
    }
  }

  /** The blocks that a pick does not touch keep their order, in both branches and for every shuffle. */
  lemma UntouchedKeepOrder(r: Request, blocks: seq<int>, shuffle: Shuffle)
    requires Permutes(shuffle) && FirstFit(r, blocks) < |blocks| && r.size >= 1 && r.blockOffset >= 0
    ensures var block := blocks[FirstFit(r, blocks)];
            Others(r, block, NextList(r, blocks, shuffle)) == Others(r, block, blocks)
  {
    var block := blocks[FirstFit(r, blocks)];
    if block == blocks[0] {
      PartitionAppend(r, block, blocks[1..], [block]);
    } else {
      var accessed := Accessed(r, block, blocks);
      PartitionAppend(r, block, Others(r, block, blocks), shuffle(accessed));
      OthersOfOthers(r, block, blocks);
      AccessedAreTouched(r, block, blocks);
      forall b | b in shuffle(accessed) ensures Touches(r, block, b) {
        assert b in multiset(shuffle(accessed));
        assert b in multiset(accessed);
      }
      NoneLeft(r, block, shuffle(accessed));
    }
  }

  /** The last `n` blocks of a list. */
  function Back(blocks: seq<int>, n: nat): seq<int>
    requires n <= |blocks|
  {
    blocks[|blocks| - n..]
  }

  /** A list has exactly these blocks, in some order, at its back. */
  predicate EndsWithAll(blocks: seq<int>, ends: seq<int>) {
    |ends| <= |blocks| && multiset(Back(blocks, |ends|)) == multiset(ends)
  }

  /** A block that is picked behind the front takes all the touched blocks to the back. */
  lemma AccessedMoveToBack(r: Request, blocks: seq<int>, shuffle: Shuffle)
    requires Permutes(shuffle) && FirstFit(r, blocks) < |blocks|
    requires blocks[FirstFit(r, blocks)] != blocks[0]
    ensures EndsWithAll(NextList(r, blocks, shuffle), Accessed(r, blocks[FirstFit(r, blocks)], blocks))
  {
    var accessed := Accessed(r, blocks[FirstFit(r, blocks)], blocks);
    SameLength(shuffle(accessed), accessed);
    assert Back(NextList(r, blocks, shuffle), |accessed|) == shuffle(accessed);
  }

  /** The fast path moves the front alone, so it leaves all the touched blocks at the back exactly if the
      others were there already. */
  lemma FrontMovesAlone(r: Request, blocks: seq<int>, shuffle: Shuffle)
    requires FirstFit(r, blocks) < |blocks| && blocks[FirstFit(r, blocks)] == blocks[0]
    requires r.size >= 1 && r.blockOffset >= 0
    ensures var accessed := Accessed(r, blocks[0], blocks);
            && accessed != [] && accessed[0] == blocks[0]
            && (EndsWithAll(NextList(r, blocks, shuffle), accessed) <==> EndsWithAll(blocks, accessed[1..]))
  {
    var block := blocks[0];
    var accessed, next := Accessed(r, block, blocks), NextList(r, blocks, shuffle);
    assert accessed[0] == block;
    PartitionKeeps(r, block, blocks);
    var last := Back(blocks, |accessed| - 1);
    assert Back(next, |accessed|) == last + [block];
    assert accessed == [block] + accessed[1..];
    SameWithout(last, accessed[1..], block);
  }

  lemma SameWithout(a: seq<int>, b: seq<int>, x: int)
    ensures multiset(a + [x]) == multiset([x] + b) <==> multiset(a) == multiset(b)
  {
    assert multiset(a + [x]) == multiset(a) + multiset{x};
    assert multiset([x] + b) == multiset(b) + multiset{x};
    if multiset(a + [x]) == multiset([x] + b) {
      assert multiset(a) == multiset(a + [x]) - multiset{x};
      assert multiset(b) == multiset([x] + b) - multiset{x};
    }
  }

  lemma SameLength(a: seq<int>, b: seq<int>)
    requires multiset(a) == multiset(b)
    ensures |a| == |b|
  {
    assert |multiset(a)| == |multiset(b)|;
  }

  /** And they need not be: here an operation on the front block touches the next one too, which stays where it
      is, ahead of blocks that were not touched. */
  lemma FrontLeavesOthers(shuffle: Shuffle)
    ensures var r, blocks := Request(100, 0, 256, 0, 0), [0, 64, 128, 192];
            && IsBlockList(blocks, 256) && FirstFit(r, blocks) == 0
            && Accessed(r, 0, blocks) == [0, 64]
            && NextList(r, blocks, shuffle) == [64, 128, 192, 0]
            && !EndsWithAll(NextList(r, blocks, shuffle), Accessed(r, 0, blocks))
  {
    var r, blocks := Request(100, 0, 256, 0, 0), [0, 64, 128, 192];
    assert AllBlocks(256) == blocks;
    assert blocks[1..] == [64, 128, 192];
    assert Accessed(r, 0, blocks) == [0] + Accessed(r, 0, [64, 128, 192]);
    assert [64, 128, 192][1..] == [128, 192] && [128, 192][1..] == [192];
    assert Accessed(r, 0, [64, 128, 192]) == [64] + Accessed(r, 0, [128, 192]);
    assert Accessed(r, 0, [128, 192]) == Accessed(r, 0, [192]) == [];
    assert Back([64, 128, 192, 0], 2) == [192, 0];
    assert 192 in multiset([192, 0]) && 192 !in multiset([0, 64]);
  }

  class BlockList {
    var blocks: seq<int>

    constructor (bufferSize: nat, shuffle: Shuffle)
      requires Permutes(shuffle)
      ensures IsBlockList(blocks, bufferSize)
    {
      blocks := shuffle(AllBlocks(bufferSize));
    }

    /** The least recently used block that fits, plus the offset in it. Some block has to fit: the program
        has no answer otherwise. */
    method GetNextOffset(r: Request, shuffle: Shuffle) returns (offset: int)
      requires SomeFits(r, blocks) && Permutes(shuffle)
      modifies this
      ensures FirstFit(r, old(blocks)) < |old(blocks)|
      ensures offset == old(blocks)[FirstFit(r, old(blocks))] + r.blockOffset
      ensures blocks == NextList(r, old(blocks), shuffle)
      ensures multiset(blocks) == multiset(old(blocks))
      ensures r.leftMargin <= offset - r.blockOffset && offset + r.size + r.rightMargin <= r.bufferSize
    {
      FitIsFound(r, blocks);
      NextListPermutes(r, blocks, shuffle);
      var i := 0;
      while !Fits(r, blocks[i])
        invariant i <= FirstFit(r, blocks) && blocks == old(blocks)
        decreases |blocks| - i
      {
        i := i + 1;
      }
      var block := blocks[i];
      if block == blocks[0] {
        blocks := blocks[1..] + [block];
      } else {
        var kept, accessed := Partition(r, block);
        blocks := kept + shuffle(accessed);
      }
      return block + r.blockOffset;
    }

    /** remove_if: the touched blocks are taken out, the others close up in order. */
    method Partition(r: Request, block: int) returns (kept: seq<int>, accessed: seq<int>)
      ensures kept == Others(r, block, blocks) && accessed == Accessed(r, block, blocks)
    {
      kept, accessed := [], [];
      for i := 0 to |blocks|
        invariant kept == Others(r, block, blocks[..i]) && accessed == Accessed(r, block, blocks[..i])
      {
        assert blocks[..i + 1] == blocks[..i] + [blocks[i]];
        PartitionAppend(r, block, blocks[..i], [blocks[i]]);
        if Touches(r, block, blocks[i]) {
          accessed := accessed + [blocks[i]];
        } else {
          kept := kept + [blocks[i]];
        }
      }
      assert blocks[..|blocks|] == blocks;
    }
  }
}
