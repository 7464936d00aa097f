/** The bit store underneath every rank and select structure: a slice of
    32-bit blocks read as one sequence of bits, plus the counting functions
    that give `rank` its meaning. */
module BitStore {

  /** Width of one storage block (the stores in this model are `u32` slices). */
  const BlockWidth: nat := 32

  /** Bit `j` of a block, numbered from the most significant bit. */
  function BlockBit(block: bv32, j: nat): bool
    requires j < BlockWidth
  {
    (block >> (31 - j)) & 1 == 1
  }

  /** The 32 bits of one block, in storage order. */
  function BlockBits(block: bv32): (bits: seq<bool>)
    ensures |bits| == BlockWidth
  {
    seq(BlockWidth, j requires 0 <= j < BlockWidth => BlockBit(block, j))
  }

  /** Bit `i` of a block store: bit `i % 32` of block `i / 32`. */
  function StoredBit(blocks: seq<bv32>, i: nat): bool
    requires i < BlockWidth * |blocks|
  {
    BlockBit(blocks[i / BlockWidth], i % BlockWidth)
  }

  /** The bit view of all the blocks of a store. */
  function Bits(blocks: seq<bv32>): (bits: seq<bool>)
    ensures |bits| == BlockWidth * |blocks|
  {
    seq(BlockWidth * |blocks|, i requires 0 <= i < BlockWidth * |blocks| => StoredBit(blocks, i))
  }

  /** A store of `bitLen` bits kept in `blockLen` blocks: the blocks hold
      every bit, and only the last block may be partly used. */
  predicate StoreShape(blockLen: nat, bitLen: nat)
  {
    bitLen <= BlockWidth * blockLen < bitLen + BlockWidth
  }

  /** The bits a store of `bitLen` bits exposes: the first `bitLen` bits of
      its blocks; the unused tail of the last block is not part of it. */
  function BitView(blocks: seq<bv32>, bitLen: nat): (bits: seq<bool>)
    requires bitLen <= BlockWidth * |blocks|
    ensures |bits| == bitLen
    ensures forall i :: 0 <= i < bitLen ==> bits[i] == StoredBit(blocks, i)
  {
    Bits(blocks)[..bitLen]
  }

  /** Bit `j` of block `b` is bit `32 * b + j` of the store. */
  lemma StoredBitOfBlock(blocks: seq<bv32>, b: nat, j: nat)
    requires j < BlockWidth && BlockWidth * b + j < BlockWidth * |blocks|
    ensures b < |blocks|
    ensures StoredBit(blocks, BlockWidth * b + j) == BlockBit(blocks[b], j)
  {
    var i := BlockWidth * b + j;
    assert i / BlockWidth == b && i % BlockWidth == j;
  }

  /** A store that fills all of its blocks exposes every bit of them. */
  lemma BitViewOfFullBlocks(blocks: seq<bv32>)
    ensures BitView(blocks, BlockWidth * |blocks|) == Bits(blocks)
  {
  }

  /** Number of set bits in `bits`. */
  function Count(bits: seq<bool>): (n: nat)
    ensures n <= |bits|
  {
    if bits == [] then 0
    else Count(bits[..|bits| - 1]) + (if bits[|bits| - 1] then 1 else 0)
  }

  /** Exclusive rank: set bits in positions `[0, i)`; this is "rank(i - 1)"
      with the convention rank(-1) = 0. */
  function RankBefore(bits: seq<bool>, i: nat): nat
    requires i <= |bits|
  {
    Count(bits[..i])
  }

  /** Inclusive rank, the quantity `Rank::rank` answers: set bits in `[0, i]`. */
  function RankAt(bits: seq<bool>, i: nat): nat
    requires i < |bits|
  {
    RankBefore(bits, i + 1)
  }

  /** Moving one position to the right adds exactly the bit passed over. */
  lemma RankBeforeStep(bits: seq<bool>, i: nat)
    requires i < |bits|
    ensures RankBefore(bits, i + 1) == RankBefore(bits, i) + (if bits[i] then 1 else 0)
  {
    assert bits[..i + 1][..i] == bits[..i];
  }

  /** The exclusive rank at the end of the store is the population count. */
  lemma RankBeforeEnd(bits: seq<bool>)
    ensures RankBefore(bits, |bits|) == Count(bits)
  {
    assert bits[..|bits|] == bits;
  }

  /** Rank is non-decreasing and grows by at most one per position. */
  lemma {:induction false} RankBeforeMonotone(bits: seq<bool>, i: nat, j: nat)
    requires i <= j <= |bits|
    ensures RankBefore(bits, i) <= RankBefore(bits, j) <= RankBefore(bits, i) + (j - i)
    decreases j - i
  {
    if i < j {
      RankBeforeMonotone(bits, i, j - 1);
      RankBeforeStep(bits, j - 1);
    }
  }

  /** Contrapositive of monotonicity: a strictly smaller rank lies strictly left. */
  lemma RankBeforeOrder(bits: seq<bool>, i: nat, j: nat)
    requires i <= |bits| && j <= |bits|
    requires RankBefore(bits, i) < RankBefore(bits, j)
    ensures i < j
  {
    if j <= i {
      RankBeforeMonotone(bits, j, i);
    }
  }

  /** Counting from the front: the first bit plus the count of the rest. */
  lemma {:induction false} CountFront(bits: seq<bool>)
    requires bits != []
    ensures Count(bits) == (if bits[0] then 1 else 0) + Count(bits[1..])
    decreases |bits|
  {
    if |bits| > 1 {
      var init := bits[..|bits| - 1];
      CountFront(init);
      assert init[1..] == bits[1..][..|bits[1..]| - 1];
    }
  }
}
