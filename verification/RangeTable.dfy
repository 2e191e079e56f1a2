/** The compressed prefix-sum table (data_structures/range_table.hpp): absolute offsets at block starts,
    one byte per length inside a block, and a sentinel at the end. */
module RangeTables {

  const BLOCK_SIZE: nat := 16

  /** The first length that block b covers: each block has an offset and BLOCK_SIZE entries. */
  function Start(b: nat): nat {
    17 * b
  }

  function Sum(s: seq<nat>): nat {
    if s == [] then 0 else Sum(s[..|s| - 1]) + s[|s| - 1]
  }

  /** The sum of the first n lengths. */
  function Prefix(lengths: seq<nat>, n: nat): nat
    requires n <= |lengths|
  {
    Sum(lengths[..n])
  }

  lemma {:induction false} PrefixStep(lengths: seq<nat>, n: nat)
    requires n < |lengths|
    ensures Prefix(lengths, n + 1) == Prefix(lengths, n) + lengths[n]
  {
    assert lengths[..n + 1][..n] == lengths[..n];
  }

  /** The length at index n, zero beyond the end. */
  function At(lengths: seq<nat>, n: nat): nat {
    if n < |lengths| then lengths[n] else 0
  }

  /** What block b should hold. */
  ghost predicate GoodBlock(lengths: seq<nat>, block: seq<nat>, b: nat) {
    |block| == BLOCK_SIZE && forall j :: 0 <= j < BLOCK_SIZE ==> block[j] == At(lengths, Start(b) + j)
  }

  ghost predicate GoodOffset(lengths: seq<nat>, offset: nat, b: nat) {
    Start(b) <= |lengths| && offset == Prefix(lengths, Start(b))
  }

  /** The blocks cover all lengths and the sentinel. */
  ghost predicate Stored(lengths: seq<nat>, offsets: seq<nat>, blocks: seq<seq<nat>>) {
    && |offsets| == |blocks| > 0 && Start(|blocks| - 1) <= |lengths| < Start(|blocks|)
    && (forall b :: 0 <= b < |offsets| ==> GoodOffset(lengths, offsets[b], b))
    && (forall b :: 0 <= b < |blocks| ==> GoodBlock(lengths, blocks[b], b))
  }

  /** A length as stored in one byte. */
  function Byte(l: nat): nat {
    l % 256
  }

  /** The state of the main pass before length i, which is entry `index` of the block at hand. */
  ghost predicate Filling(lengths: seq<nat>, i: nat, index: nat, offsets: seq<nat>, blocks: seq<seq<nat>>,
                          block: seq<nat>, last: nat, sum: nat) {
    && i <= |lengths| && index <= BLOCK_SIZE && i == Start(|blocks|) + index && sum == Prefix(lengths, i)
    && last <= 255 && (i > 0 ==> last == lengths[i - 1])
    && |offsets| == (if index == 0 then |blocks| else |blocks| + 1)
    && (forall b :: 0 <= b < |offsets| ==> GoodOffset(lengths, offsets[b], b))
    && (forall b :: 0 <= b < |blocks| ==> GoodBlock(lengths, blocks[b], b))
    && |block| == BLOCK_SIZE && forall j :: 0 <= j < index - 1 ==> block[j] == At(lengths, Start(|blocks|) + j)
  }

  class RangeTable {
    var blockOffsets: seq<nat>
    var diffBlocks: seq<seq<nat>>
    var sumLengths: nat

    ghost predicate Valid(lengths: seq<nat>)
      reads this
    {
      Stored(lengths, blockOffsets, diffBlocks) && sumLengths == Sum(lengths)
    }

    constructor (lengths: seq<nat>)
      requires forall i :: 0 <= i < |lengths| ==> lengths[i] <= 255
      ensures Valid(lengths)
    {
      var offsets, blocks, block, last, sum, index := Fill(lengths);
      ghost var b := |blocks|;
      if index == 0 {
        offsets := offsets + [sum];
        index, last := 1, 0;
      }
      block := Pad(lengths, block, last, index, b);
      blockOffsets := offsets;
      diffBlocks := blocks + [block];
      sumLengths := sum;
    }

    /** Completes the last block with zeros. */
    static method Pad(ghost lengths: seq<nat>, block0: seq<nat>, last0: nat, index0: nat, ghost b: nat)
        returns (block: seq<nat>)
      requires |block0| == BLOCK_SIZE && 1 <= index0 <= BLOCK_SIZE && last0 <= 255
      requires |lengths| <= Start(b) + index0 && last0 == At(lengths, Start(b) + (index0 - 1))
      requires forall j :: 0 <= j < index0 - 1 ==> block0[j] == At(lengths, Start(b) + j)
      ensures GoodBlock(lengths, block, b)
    {
      block := block0;
      var index, last := index0, last0;
      while index != 0
        invariant 0 <= index <= BLOCK_SIZE && |block| == BLOCK_SIZE && last <= 255
        invariant index > 0 ==> index0 <= index && last == At(lengths, Start(b) + (index - 1))
        invariant index > 0 ==> forall j :: 0 <= j < index - 1 ==> block[j] == At(lengths, Start(b) + j)
        invariant index == 0 ==> GoodBlock(lengths, block, b)
        decreases if index == 0 then 0 else 17 - index
      {
        block := block[index - 1 := Byte(last)];
        last := 0;
        index := (index + 1) % (BLOCK_SIZE + 1);
      }
    }

    /** The main pass: finished blocks, and the one under construction. */
    static method Fill(lengths: seq<nat>)
        returns (offsets: seq<nat>, blocks: seq<seq<nat>>, block: seq<nat>, last: nat, sum: nat, index: nat)
      requires forall i :: 0 <= i < |lengths| ==> lengths[i] <= 255
      ensures Filling(lengths, |lengths|, index, offsets, blocks, block, last, sum) && sum == Sum(lengths)
    {
      offsets, blocks, block, last, sum, index := [], [], seq(BLOCK_SIZE, _ => 0), 0, 0, 0;
      for i := 0 to |lengths|
        invariant Filling(lengths, i, index, offsets, blocks, block, last, sum)
      {
        PrefixStep(lengths, i);
        if index == 0 {
          offsets := offsets + [sum];
        } else {
          block := block[index - 1 := Byte(last)];
        }
        if BLOCK_SIZE == index {
          blocks := blocks + [block];
        }
        sum := sum + lengths[i];
        last := lengths[i];
        index := (index + 1) % (BLOCK_SIZE + 1);
      }
      assert lengths[..|lengths|] == lengths;
    }

    /** PrefixSumAtIndex. */
    static method PrefixSumAtIndex(index: int, block: seq<nat>) returns (sum: nat)
      requires -1 <= index < |block|
      ensures sum == Sum(block[..index + 1])
    {
      sum := 0;
      for i := 0 to index + 1
        invariant sum == Sum(block[..i])
      {
        assert block[..i + 1][..i] == block[..i];
        sum := sum + block[i];
      }
    }

    /** Range number id is what plain prefix sums say, wherever it lies in its block. */
    method GetRange(id: nat, ghost lengths: seq<nat>) returns (begin: nat, end: nat)
      requires Valid(lengths) && id < |lengths|
      ensures begin == Prefix(lengths, id) && end == Prefix(lengths, id + 1)
      ensures begin < sumLengths <==> exists i :: id <= i < |lengths| && lengths[i] > 0
    {
      var internal, b := id % (BLOCK_SIZE + 1), id / (BLOCK_SIZE + 1);
      assert id == Start(b) + internal;
      begin := blockOffsets[b];
      var block := diffBlocks[b];
      assert GoodOffset(lengths, blockOffsets[b], b) && GoodBlock(lengths, block, b);
      if internal > 0 {
        var sum := PrefixSumAtIndex(internal - 1, block);
        begin := begin + sum;
      }
      BlockSums(lengths, block, b, internal);
      PrefixStep(lengths, id);
      if internal < BLOCK_SIZE {
        end := begin + block[internal];
      } else {
        assert GoodOffset(lengths, blockOffsets[b + 1], b + 1);
        end := blockOffsets[b + 1];
      }
      SumPositive(lengths, id);
    }
  }

  /** The entries of a block add up to the distance from its offset. */
  lemma {:induction false} BlockSums(lengths: seq<nat>, block: seq<nat>, b: nat, n: nat)
    requires GoodBlock(lengths, block, b) && n <= BLOCK_SIZE && Start(b) + n <= |lengths|
    ensures Prefix(lengths, Start(b)) + Sum(block[..n]) == Prefix(lengths, Start(b) + n)
  {
    if n > 0 {
      BlockSums(lengths, block, b, n - 1);
      PrefixStep(lengths, Start(b) + n - 1);
      assert block[..n][..n - 1] == block[..n - 1];
    }
  }

  /** Something is left to sum up exactly when a later length is positive. */
  lemma {:induction false} SumPositive(lengths: seq<nat>, n: nat)
    requires n <= |lengths|
    ensures Prefix(lengths, n) <= Sum(lengths)
    ensures Prefix(lengths, n) < Sum(lengths) <==> exists i :: n <= i < |lengths| && lengths[i] > 0
    decreases |lengths| - n
  {
    if n == |lengths| {
      assert lengths[..n] == lengths;
    } else {
      PrefixStep(lengths, n);
      SumPositive(lengths, n + 1);
    }
  }

  /** The only range of a table of one empty range begins at the total, which its assertion forbids. */
  method EmptyRange() returns (begin: nat, end: nat, total: nat)
    ensures begin == end == total == 0 && !(begin < total)
  {
    var lengths := [0];
    var table := new RangeTable(lengths);
    begin, end := table.GetRange(0, lengths);
    total := table.sumLengths;
    assert lengths[..0] == [] && lengths[..1] == lengths;
    assert Prefix(lengths, 1) == Prefix(lengths, 0) + lengths[0] by {
      PrefixStep(lengths, 0);
    }
  }
}
