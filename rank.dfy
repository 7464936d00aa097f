/** The `Rank` capability: a bit store that also answers inclusive rank
    queries. The concrete rank index of the library is not part of this
    model; `RankSupport` stands in for it as a bit store together with the
    table of answers its `rank` gives, constrained by the rank contract. */
module Rank {
  import opened BitStore

  /** The answer to "rank(i - 1)" read off a table of answers, with rank(-1) = 0. */
  function Previous(table: seq<nat>, i: nat): nat
    requires i <= |table|
  {
    if i == 0 then 0 else table[i - 1]
  }

  /** The contract every rank support honours: one answer per bit, and each
      answer is the previous one plus the bit at that position, so the
      answers are non-decreasing and move by 0 or 1 per position. */
  ghost predicate RankContract(bits: seq<bool>, table: seq<nat>)
  {
    |table| == |bits| &&
    forall i {:trigger bits[i]} :: 0 <= i < |table| ==> table[i] == Previous(table, i) + (if bits[i] then 1 else 0)
  }

  /** The true inclusive ranks of a bit sequence, position by position. */
  function RankTable(bits: seq<bool>): (table: seq<nat>)
    ensures |table| == |bits|
  {
    seq(|bits|, i requires 0 <= i < |bits| => RankAt(bits, i))
  }

  /** The true ranks meet the contract. */
  lemma RankTableMeetsContract(bits: seq<bool>)
    ensures RankContract(bits, RankTable(bits))
  {
    var table := RankTable(bits);
    forall i | 0 <= i < |table|
      ensures table[i] == Previous(table, i) + (if bits[i] then 1 else 0)
    {
      RankBeforeStep(bits, i);
    }
  }

  /** The contract pins every answer down: a table meeting it gives at each
      position exactly the number of set bits in [0, i]. */
  lemma {:induction false} ContractGivesRank(bits: seq<bool>, table: seq<nat>, i: nat)
    requires RankContract(bits, table)
    requires i < |bits|
    ensures table[i] == RankAt(bits, i)
  {
    RankBeforeStep(bits, i);
    if i > 0 {
      ContractGivesRank(bits, table, i - 1);
    }
  }

  /** Both directions: a table meets the contract exactly when it is the
      table of true ranks. */
  lemma ContractIsRankTable(bits: seq<bool>, table: seq<nat>)
    ensures RankContract(bits, table) <==> table == RankTable(bits)
  {
    if RankContract(bits, table) {
      forall i | 0 <= i < |table| ensures table[i] == RankTable(bits)[i] {
        ContractGivesRank(bits, table, i);
      }
    } else {
      RankTableMeetsContract(bits);
    }
  }

  /** A rank support over a store of `bitLen` bits kept in 32-bit blocks,
      immutable after construction. `bits` is the store's bit view and
      `table` the answers its `rank` gives. */
  class RankSupport {
    const blocks: seq<bv32>
    const bitLen: nat
    const table: seq<nat>
    ghost const bits: seq<bool>

    ghost predicate Valid()
    {
      StoreShape(|blocks|, bitLen) &&
      |bits| == bitLen &&
      (forall i {:trigger StoredBit(blocks, i)} :: 0 <= i < bitLen ==> bits[i] == StoredBit(blocks, i)) &&
      RankContract(bits, table)
    }

    /** The bits of the store. */
    ghost function Contents(): seq<bool>
      requires Valid()
    {
      bits
    }

    constructor (blocks: seq<bv32>, bitLen: nat)
      requires StoreShape(|blocks|, bitLen)
      ensures this.blocks == blocks && this.bitLen == bitLen
      ensures Valid()
      ensures Contents() == BitView(blocks, bitLen)
    {
      this.blocks := blocks;
      this.bitLen := bitLen;
      this.bits := BitView(blocks, bitLen);
      this.table := RankTable(BitView(blocks, bitLen));
      RankTableMeetsContract(BitView(blocks, bitLen));
    }

    function BlockLen(): nat
    {
      |blocks|
    }

    function BitLen(): nat
    {
      bitLen
    }

    function GetBlock(index: nat): bv32
      requires index < BlockLen()
    {
      blocks[index]
    }

    function GetBit(index: nat): (bit: bool)
      requires Valid()
      requires index < BitLen()
      ensures bit == Contents()[index]
    {
      StoredBit(blocks, index)
    }

    function Rank(index: nat): (r: nat)
      requires Valid()
      requires index < BitLen()
      ensures r == RankAt(Contents(), index)
    {
      ContractGivesRank(Contents(), table, index);
      table[index]
    }
  }
}
