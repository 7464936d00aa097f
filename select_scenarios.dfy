/** The three stores exercised by the tests of `BinSearchSelect`: 1024 copies
    of one 32-bit block each. Ranks over such a store have a closed form,
    from which the select answers of the tests follow. */
module SelectScenarios {
  import opened BitStore
  import opened Rank
  import opened Select

  const StoreBlocks: nat := 1024

  /** Set bits at positions 0, 16, 17 and 18 of each block. */
  const SparseBlock: bv32 := 0x8000_E000
  /** Set bits at the odd positions of each block. */
  const AlternatingBlock: bv32 := 0x5555_5555
  /** Every bit set. */
  const FullBlock: bv32 := 0xFFFF_FFFF

  function Store(block: bv32): (blocks: seq<bv32>)
    ensures |blocks| == StoreBlocks
    ensures forall i :: 0 <= i < |blocks| ==> blocks[i] == block
  {
    seq(StoreBlocks, _ => block)
  }

  /** Over a store of identical blocks the rank before `n` is the whole-block
      count times the number of complete blocks plus the count inside the
      last, partial block. */
  lemma {:induction false} PeriodicRank(block: bv32, blocks: seq<bv32>, n: nat)
    requires forall i :: 0 <= i < |blocks| ==> blocks[i] == block
    requires n <= |Bits(blocks)|
    ensures RankBefore(Bits(blocks), n)
            == Count(BlockBits(block)) * (n / BlockWidth) + RankBefore(BlockBits(block), n % BlockWidth)
  {
    if n > 0 {
      var m := n - 1;
      var bits, one := Bits(blocks), BlockBits(block);
      var q, r := m / BlockWidth, m % BlockWidth;
      var c := Count(one);
      PeriodicRank(block, blocks, m);
      RankBeforeStep(bits, m);
      RankBeforeStep(one, r);
      PeriodicBit(block, blocks, m);
      NextPosition(m);
      if r == BlockWidth - 1 {
        RankBeforeEnd(one);
        MulSucc(c, q);
        assert one[..0] == [];
        assert n / BlockWidth == q + 1 && n % BlockWidth == 0;
      } else {
        assert n / BlockWidth == q && n % BlockWidth == r + 1;
      }
    }
  }

  /** In a store of identical blocks, bit `m` is bit `m % 32` of the block. */
  lemma PeriodicBit(block: bv32, blocks: seq<bv32>, m: nat)
    requires forall i :: 0 <= i < |blocks| ==> blocks[i] == block
    requires m < |Bits(blocks)|
    ensures Bits(blocks)[m] == BlockBits(block)[m % BlockWidth]
  {
    assert blocks[m / BlockWidth] == block;
  }

  /** Where position `m + 1` falls, in blocks and offsets, given where `m` falls. */
  lemma NextPosition(m: nat)
    ensures m % BlockWidth == BlockWidth - 1 ==>
              (m + 1) / BlockWidth == m / BlockWidth + 1 && (m + 1) % BlockWidth == 0
    ensures m % BlockWidth < BlockWidth - 1 ==>
              (m + 1) / BlockWidth == m / BlockWidth && (m + 1) % BlockWidth == m % BlockWidth + 1
  {
  }

  lemma MulSucc(c: nat, q: nat)
    ensures c * (q + 1) == c * q + c
  {
  }

  lemma SparseBit(j: nat)
    requires j < BlockWidth
    ensures BlockBits(SparseBlock)[j] == (j == 0 || 16 <= j <= 18)
  {
  }

  lemma AlternatingBit(j: nat)
    requires j < BlockWidth
    ensures BlockBits(AlternatingBlock)[j] == (j % 2 == 1)
  {
  }

  lemma FullBit(j: nat)
    requires j < BlockWidth
    ensures BlockBits(FullBlock)[j]
  {
  }

  /** Set bits among the first `r` bits of the sparse block. */
  function SparsePrefix(r: nat): nat
  {
    if r == 0 then 0 else if r <= 16 then 1 else if r <= 19 then r - 15 else 4
  }

  lemma {:induction false} SparseBlockRank(r: nat)
    requires r <= BlockWidth
    ensures RankBefore(BlockBits(SparseBlock), r) == SparsePrefix(r)
  {
    if r == 0 {
      assert BlockBits(SparseBlock)[..0] == [];
    } else {
      SparseBlockRank(r - 1);
      RankBeforeStep(BlockBits(SparseBlock), r - 1);
      SparseBit(r - 1);
    }
  }

  lemma {:induction false} AlternatingBlockRank(r: nat)
    requires r <= BlockWidth
    ensures RankBefore(BlockBits(AlternatingBlock), r) == r / 2
  {
    if r == 0 {
      assert BlockBits(AlternatingBlock)[..0] == [];
    } else {
      AlternatingBlockRank(r - 1);
      RankBeforeStep(BlockBits(AlternatingBlock), r - 1);
      AlternatingBit(r - 1);
    }
  }

  lemma {:induction false} FullBlockRank(r: nat)
    requires r <= BlockWidth
    ensures RankBefore(BlockBits(FullBlock), r) == r
  {
    if r == 0 {
      assert BlockBits(FullBlock)[..0] == [];
    } else {
      FullBlockRank(r - 1);
      RankBeforeStep(BlockBits(FullBlock), r - 1);
      FullBit(r - 1);
    }
  }

  /** Closed forms of the rank over each whole store. */
  lemma SparseRank(n: nat)
    requires n <= BlockWidth * StoreBlocks
    ensures RankBefore(Bits(Store(SparseBlock)), n) == 4 * (n / BlockWidth) + SparsePrefix(n % BlockWidth)
  {
    PeriodicRank(SparseBlock, Store(SparseBlock), n);
    SparseBlockRank(BlockWidth);
    RankBeforeEnd(BlockBits(SparseBlock));
    SparseBlockRank(n % BlockWidth);
  }

  lemma AlternatingRank(n: nat)
    requires n <= BlockWidth * StoreBlocks
    ensures RankBefore(Bits(Store(AlternatingBlock)), n) == n / 2
  {
    PeriodicRank(AlternatingBlock, Store(AlternatingBlock), n);
    AlternatingBlockRank(BlockWidth);
    RankBeforeEnd(BlockBits(AlternatingBlock));
    AlternatingBlockRank(n % BlockWidth);
    HalfOfPosition(n);
  }

  /** Half of a position, counted block by block. */
  lemma HalfOfPosition(n: nat)
    ensures 16 * (n / BlockWidth) + (n % BlockWidth) / 2 == n / 2
  {
    var q, r := n / BlockWidth, n % BlockWidth;
    assert n == 32 * q + r;
  }

  lemma FullRank(n: nat)
    requires n <= BlockWidth * StoreBlocks
    ensures RankBefore(Bits(Store(FullBlock)), n) == n
  {
    PeriodicRank(FullBlock, Store(FullBlock), n);
    FullBlockRank(BlockWidth);
    RankBeforeEnd(BlockBits(FullBlock));
    FullBlockRank(n % BlockWidth);
  }

  /** Offset inside a block of the block's `t`-th set bit in the sparse store. */
  function SparseOffset(t: nat): nat
    requires t < 4
  {
    if t == 0 then 0 else 15 + t
  }

  /** Position `r` of block `q`, in blocks and offsets. */
  lemma PositionInBlock(q: nat, r: nat)
    requires r < BlockWidth
    ensures (BlockWidth * q + r) / BlockWidth == q && (BlockWidth * q + r) % BlockWidth == r
  {
  }

  /** Sparse store: the rank reaches 4q + t + 1 at the t-th set bit of block q. */
  lemma SparseRankAround(q: nat, t: nat)
    requires q < StoreBlocks && t < 4
    ensures var p := BlockWidth * q + SparseOffset(t);
            p < BlockWidth * StoreBlocks &&
            RankBefore(Bits(Store(SparseBlock)), p) == 4 * q + t &&
            RankBefore(Bits(Store(SparseBlock)), p + 1) == 4 * q + t + 1
  {
    var p := BlockWidth * q + SparseOffset(t);
    SparseRank(p + 1);
    SparseRank(p);
    PositionInBlock(q, SparseOffset(t) + 1);
    PositionInBlock(q, SparseOffset(t));
  }

  /** Sparse store: the (4q + t)-th set bit is the t-th set bit of block q. */
  lemma SparseSelect(bits: seq<bool>, q: nat, t: nat)
    requires bits == Bits(Store(SparseBlock))
    requires q < StoreBlocks && t < 4
    ensures SelectIn(bits, 4 * q + t) == Some(BlockWidth * q + SparseOffset(t))
  {
    var p := BlockWidth * q + SparseOffset(t);
    SparseRankAround(q, t);
    OnsetIsSelect(bits, 4 * q + t, p);
  }

  /** Sparse store: there are exactly 4096 set bits, so select(4096) is None. */
  lemma SparseSelectPastEnd(bits: seq<bool>)
    requires bits == Bits(Store(SparseBlock))
    ensures Count(bits) == 4 * StoreBlocks
    ensures SelectIn(bits, 4 * StoreBlocks) == None
  {
    SparseRank(|bits|);
    RankBeforeEnd(bits);
    SelectNoneIff(bits, 4 * StoreBlocks);
  }

  /** Sparse store: the inclusive ranks checked by the tests. */
  lemma SparseRanks()
    ensures var bits := Bits(Store(SparseBlock));
            RankAt(bits, 0) == 1 && RankAt(bits, 1) == 1 && RankAt(bits, 2) == 1 &&
            RankAt(bits, 15) == 1 && RankAt(bits, 16) == 2 && RankAt(bits, 17) == 3 &&
            RankAt(bits, 18) == 4 && RankAt(bits, 19) == 4 && RankAt(bits, 20) == 4 &&
            RankAt(bits, 32) == 5
  {
    SparseRank(1); SparseRank(2); SparseRank(3); SparseRank(16); SparseRank(17);
    SparseRank(18); SparseRank(19); SparseRank(20); SparseRank(21); SparseRank(33);
  }

  /** Alternating store: the i-th set bit sits at position 2i + 1. */
  lemma AlternatingSelect(bits: seq<bool>, i: nat)
    requires bits == Bits(Store(AlternatingBlock))
    requires i < BlockWidth * StoreBlocks / 2
    ensures SelectIn(bits, i) == Some(2 * i + 1)
    ensures SelectIn(bits, BlockWidth * StoreBlocks / 2) == None
  {
    AlternatingRank(2 * i + 2);
    AlternatingRank(2 * i + 1);
    OnsetIsSelect(bits, i, 2 * i + 1);
    AlternatingRank(|bits|);
    RankBeforeEnd(bits);
    SelectNoneIff(bits, BlockWidth * StoreBlocks / 2);
  }

  /** Full store: the i-th set bit sits at position i, and past the end there
      is none. */
  lemma FullSelect(bits: seq<bool>, i: nat)
    requires bits == Bits(Store(FullBlock))
    requires i < BlockWidth * StoreBlocks
    ensures SelectIn(bits, i) == Some(i)
    ensures SelectIn(bits, BlockWidth * StoreBlocks) == None
  {
    FullRank(i + 1);
    FullRank(i);
    OnsetIsSelect(bits, i, i);
    FullRank(|bits|);
    RankBeforeEnd(bits);
    SelectNoneIff(bits, BlockWidth * StoreBlocks);
  }

  /** The sparse-store rank queries of the tests, asked of a `BinSearchSelect`. */
  method SparseStoreRanks() returns (ranks: seq<nat>)
    ensures ranks == [1, 1, 1, 1, 2, 3, 4, 4, 4, 5]
  {
    var support := new RankSupport(Store(SparseBlock), BlockWidth * StoreBlocks);
    BitViewOfFullBlocks(Store(SparseBlock));
    var select := new BinSearchSelect(support);
    SparseRanks();
    ranks := [select.Rank(0), select.Rank(1), select.Rank(2), select.Rank(15), select.Rank(16),
              select.Rank(17), select.Rank(18), select.Rank(19), select.Rank(20), select.Rank(32)];
  }

  /** A `BinSearchSelect` over the sparse store finds the t-th set bit of block q. */
  method SparseStoreSelect(q: nat, t: nat) returns (answer: Option<nat>)
    requires q < StoreBlocks && t < 4
    ensures answer == Some(BlockWidth * q + SparseOffset(t))
  {
    var support := new RankSupport(Store(SparseBlock), BlockWidth * StoreBlocks);
    BitViewOfFullBlocks(Store(SparseBlock));
    var select := new BinSearchSelect(support);
    SparseSelect(select.Contents(), q, t);
    ghost var rankQueries;
    answer, rankQueries := select.Select(4 * q + t);
  }

  /** A `BinSearchSelect` over the sparse store has nothing to return at 4096 or beyond. */
  method SparseStoreSelectPastEnd(index: nat) returns (answer: Option<nat>)
    requires index >= 4 * StoreBlocks
    ensures answer == None
  {
    var support := new RankSupport(Store(SparseBlock), BlockWidth * StoreBlocks);
    BitViewOfFullBlocks(Store(SparseBlock));
    var select := new BinSearchSelect(support);
    SparseSelectPastEnd(select.Contents());
    ghost var rankQueries;
    answer, rankQueries := select.Select(index);
  }

  /** The sparse-store select queries of the tests. */
  method SparseStoreQueries() returns (answers: seq<Option<nat>>)
    ensures answers == [Some(0), Some(16), Some(17), Some(18), Some(32), Some(3200), Some(3216),
                        Some(8 * 4092), Some(8 * 4092 + 16), Some(8 * 4092 + 17), Some(8 * 4092 + 18),
                        None]
  {
    var a0 := SparseStoreSelect(0, 0);
    var a1 := SparseStoreSelect(0, 1);
    var a2 := SparseStoreSelect(0, 2);
    var a3 := SparseStoreSelect(0, 3);
    var a4 := SparseStoreSelect(1, 0);
    var a400 := SparseStoreSelect(100, 0);
    var a401 := SparseStoreSelect(100, 1);
    var a4092 := SparseStoreSelect(1023, 0);
    var a4093 := SparseStoreSelect(1023, 1);
    var a4094 := SparseStoreSelect(1023, 2);
    var a4095 := SparseStoreSelect(1023, 3);
    var a4096 := SparseStoreSelectPastEnd(4096);
    answers := [a0, a1, a2, a3, a4, a400, a401, a4092, a4093, a4094, a4095, a4096];
  }

  /** A `BinSearchSelect` over the alternating store finds the i-th set bit at 2i + 1. */
  method AlternatingStoreSelect(index: nat) returns (answer: Option<nat>)
    requires index < BlockWidth * StoreBlocks / 2
    ensures answer == Some(2 * index + 1)
  {
    var support := new RankSupport(Store(AlternatingBlock), BlockWidth * StoreBlocks);
    BitViewOfFullBlocks(Store(AlternatingBlock));
    var select := new BinSearchSelect(support);
    AlternatingSelect(select.Contents(), index);
    ghost var rankQueries;
    answer, rankQueries := select.Select(index);
  }

  /** The alternating-store queries of the tests. */
  method AlternatingStoreQueries() returns (answers: seq<Option<nat>>)
    ensures answers == [Some(1), Some(3), Some(5), Some(7), Some(919)]
  {
    var a0 := AlternatingStoreSelect(0);
    var a1 := AlternatingStoreSelect(1);
    var a2 := AlternatingStoreSelect(2);
    var a3 := AlternatingStoreSelect(3);
    var a459 := AlternatingStoreSelect(459);
    answers := [a0, a1, a2, a3, a459];
  }

  /** A `BinSearchSelect` over the full store finds the i-th set bit at i,
      and none past the end of the store. */
  method FullStoreSelect(index: nat) returns (answer: Option<nat>)
    ensures index < BlockWidth * StoreBlocks ==> answer == Some(index)
    ensures index >= BlockWidth * StoreBlocks ==> answer == None
  {
    var support := new RankSupport(Store(FullBlock), BlockWidth * StoreBlocks);
    BitViewOfFullBlocks(Store(FullBlock));
    var select := new BinSearchSelect(support);
    ghost var bits := select.Contents();
    if index < BlockWidth * StoreBlocks {
      FullSelect(bits, index);
    } else {
      FullRank(|bits|);
      RankBeforeEnd(bits);
    }
    ghost var rankQueries;
    answer, rankQueries := select.Select(index);
  }

  /** The full-store queries of the tests. */
  method FullStoreQueries() returns (answers: seq<Option<nat>>)
    ensures answers == [Some(0), Some(1), Some(2), Some(32767), None]
  {
    var a0 := FullStoreSelect(0);
    var a1 := FullStoreSelect(1);
    var a2 := FullStoreSelect(2);
    var a32767 := FullStoreSelect(32767);
    var a32768 := FullStoreSelect(32768);
    answers := [a0, a1, a2, a32767, a32768];
  }
}
