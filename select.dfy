/** The `Select` capability and `BinSearchSelect`, which answers select
    queries by binary search over the inclusive rank of a wrapped rank
    support. */
module Select {
  import opened BitStore
  import opened Rank

  datatype Option<T> = None | Some(value: T)

  /** Reference meaning of `select(k)`: the position of the (k+1)-th set bit
      (k counts from zero), found by walking the bits from the front; None
      when there are not that many set bits. */
  function SelectIn(bits: seq<bool>, k: nat): (r: Option<nat>)
    ensures r.Some? ==> r.value < |bits|
    decreases |bits|
  {
    if bits == [] then None
    else if bits[0] && k == 0 then Some(0)
    else
      match SelectIn(bits[1..], if bits[0] then k - 1 else k)
      case None => None
      case Some(p) => Some(p + 1)
  }

  /** A select answer exists exactly when `k + 1` does not exceed the
      population count. */
  lemma {:induction false} SelectNoneIff(bits: seq<bool>, k: nat)
    ensures SelectIn(bits, k).None? <==> Count(bits) < k + 1
    decreases |bits|
  {
    if bits != [] {
      CountFront(bits);
      if !(bits[0] && k == 0) {
        SelectNoneIff(bits[1..], if bits[0] then k - 1 else k);
      }
    }
  }

  /** A select answer is a set bit with exactly `k` set bits before it. */
  lemma {:induction false} SelectIsSetBit(bits: seq<bool>, k: nat, p: nat)
    requires SelectIn(bits, k) == Some(p)
    ensures p < |bits| && bits[p] && RankBefore(bits, p) == k
    decreases |bits|
  {
    if bits[0] && k == 0 {
      assert bits[..0] == [];
    } else {
      var k' := if bits[0] then k - 1 else k;
      SelectIsSetBit(bits[1..], k', p - 1);
      CountFront(bits[..p]);
      assert bits[..p][1..] == bits[1..][..p - 1];
    }
  }

  /** Rank/select duality, in the terms of inclusive rank: the answer is the
      position where the rank first reaches `k + 1`. */
  lemma SelectIsOnset(bits: seq<bool>, k: nat, p: nat)
    requires SelectIn(bits, k) == Some(p)
    ensures p < |bits| && RankAt(bits, p) == k + 1
    ensures p == 0 || RankAt(bits, p - 1) == k
  {
    SelectIsSetBit(bits, k, p);
    RankBeforeStep(bits, p);
  }

  /** Converse of the duality: the onset of rank `k + 1` is the select answer. */
  lemma OnsetIsSelect(bits: seq<bool>, k: nat, p: nat)
    requires p < |bits| && RankAt(bits, p) == k + 1
    requires p == 0 || RankAt(bits, p - 1) == k
    ensures SelectIn(bits, k) == Some(p)
  {
    assert RankBefore(bits, p) == k by {
      if p == 0 { assert bits[..0] == []; }
    }
    RankBeforeMonotone(bits, p + 1, |bits|);
    RankBeforeEnd(bits);
    SelectNoneIff(bits, k);
    var q := SelectIn(bits, k).value;
    SelectIsSetBit(bits, k, q);
    RankBeforeStep(bits, q);
    if q < p {
      RankBeforeOrder(bits, p, q + 1);
    } else if p < q {
      RankBeforeOrder(bits, q, p + 1);
    }
  }

  /** Select is strictly increasing in `k` over the valid indices. */
  lemma SelectMonotone(bits: seq<bool>, k1: nat, k2: nat, p1: nat, p2: nat)
    requires k1 < k2
    requires SelectIn(bits, k1) == Some(p1) && SelectIn(bits, k2) == Some(p2)
    ensures p1 < p2
  {
    SelectIsSetBit(bits, k1, p1);
    SelectIsSetBit(bits, k2, p2);
    RankBeforeOrder(bits, p1, p2);
  }

  /** Rank then select returns to a set bit: selecting index rank(p) - 1
      yields `p` itself. */
  lemma RankSelectRoundTrip(bits: seq<bool>, p: nat)
    requires p < |bits| && bits[p]
    ensures RankAt(bits, p) >= 1 && SelectIn(bits, RankAt(bits, p) - 1) == Some(p)
  {
    RankBeforeStep(bits, p);
    if p > 0 {
      assert RankAt(bits, p - 1) == RankBefore(bits, p);
    }
    OnsetIsSelect(bits, RankAt(bits, p) - 1, p);
  }

  /** Average of two positions computed without forming `start + limit`. */
  function Midpoint(start: nat, limit: nat): (mid: nat)
    ensures mid == (start + limit) / 2
    ensures start < limit ==> start <= mid < limit
    ensures start / 2 + limit / 2 <= mid <= if start <= limit then limit else start
  {
    start / 2 + limit / 2 + (start % 2 + limit % 2) / 2
  }

  /** Floor of the base-2 logarithm. */
  function Log2(n: nat): nat
    requires n >= 1
  {
    if n == 1 then 0 else 1 + Log2(n / 2)
  }

  lemma {:induction false} Log2Monotone(a: nat, b: nat)
    requires 1 <= a <= b
    ensures Log2(a) <= Log2(b)
  {
    if a > 1 {
      Log2Monotone(a / 2, b / 2);
    }
  }

  /** Each pass of the search replaces `[start, limit)` by the part left of
      `mid - 1`, the part left of `mid` or the part right of `mid`. Each is at
      most half as long, so a non-empty result has a logarithm at least one
      smaller. */
  lemma NarrowHalves(start: nat, limit: nat, newStart: nat, newLimit: nat)
    requires newStart < newLimit
    requires var mid := Midpoint(start, limit);
      (newStart == start && newLimit == mid - 1) ||
      (newStart == start && newLimit == mid) ||
      (newStart == mid + 1 && newLimit == limit)
    ensures start < limit && Log2(newLimit - newStart) + 1 <= Log2(limit - start)
  {
    Log2Monotone(newLimit - newStart, (limit - start) / 2);
  }

  /** The decision table of one search pass, for the rank `preMidRank`
      before `mid` and the rank `midRank` at `mid`, while looking for the
      `index`-th set bit at `onset`: each branch's test puts the onset where
      that branch keeps searching, the first test holds exactly at the onset,
      and the four tests together cover every case. */
  lemma LocateOnset(bits: seq<bool>, index: nat, onset: nat, mid: nat, preMidRank: nat, midRank: nat)
    requires SelectIn(bits, index) == Some(onset)
    requires mid < |bits|
    requires preMidRank == RankBefore(bits, mid) && midRank == RankBefore(bits, mid + 1)
    ensures midRank == index + 1 && preMidRank == index <==> mid == onset
    ensures preMidRank > index + 1 ==> onset + 1 < mid
    ensures preMidRank == index + 1 ==> onset < mid
    ensures midRank < index + 1 ==> mid < onset
    ensures (midRank == index + 1 && preMidRank == index) || preMidRank > index + 1 ||
            preMidRank == index + 1 || midRank < index + 1
  {
    SelectIsSetBit(bits, index, onset);
    RankBeforeStep(bits, onset);
    RankBeforeStep(bits, mid);
    if preMidRank > index + 1 {
      RankBeforeOrder(bits, onset + 1, mid);
    }
    if preMidRank == index + 1 {
      RankBeforeOrder(bits, onset, mid);
    }
    if midRank < index + 1 {
      RankBeforeOrder(bits, mid + 1, onset + 1);
    }
    if preMidRank <= index && index + 1 <= midRank {
      RankBeforeOrder(bits, mid, onset + 1);
      RankBeforeOrder(bits, onset, mid + 1);
    }
  }

  /** Select support by binary search over the ranks of a wrapped rank
      support. It only reads the rank support and keeps the population count
      it computed at construction. */
  class BinSearchSelect {
    const rankSupport: RankSupport
    const maxRank: nat

    ghost predicate Valid()
    {
      rankSupport.Valid() &&
      rankSupport.BitLen() >= 1 &&
      maxRank == rankSupport.Rank(rankSupport.BitLen() - 1)
    }

    /** The bits of the wrapped store. */
    ghost function Contents(): seq<bool>
      requires Valid()
    {
      rankSupport.Contents()
    }

    constructor (rankSupport: RankSupport)
      requires rankSupport.Valid()
      requires rankSupport.BitLen() >= 1
      ensures this.rankSupport == rankSupport
      ensures maxRank == rankSupport.Rank(rankSupport.BitLen() - 1)
      ensures maxRank == Count(rankSupport.Contents())
      ensures Valid()
    {
      var maxIndex := rankSupport.BitLen() - 1;
      this.rankSupport := rankSupport;
      this.maxRank := rankSupport.Rank(maxIndex);
      RankBeforeEnd(rankSupport.Contents());
    }

    function BlockLen(): (n: nat)
      requires Valid()
      ensures n == rankSupport.BlockLen()
      ensures BitLen() <= BlockWidth * n < BitLen() + BlockWidth
    {
      rankSupport.BlockLen()
    }

    function BitLen(): (n: nat)
      requires Valid()
      ensures n == rankSupport.BitLen() == |Contents()|
    {
      rankSupport.BitLen()
    }

    function GetBlock(index: nat): (b: bv32)
      requires Valid()
      requires index < BlockLen()
      ensures b == rankSupport.GetBlock(index)
      ensures forall j :: 0 <= j < BlockWidth && BlockWidth * index + j < BitLen() ==>
                BlockBit(b, j) == Contents()[BlockWidth * index + j]
    {
      forall j | 0 <= j < BlockWidth && BlockWidth * index + j < BitLen()
        ensures BlockBit(rankSupport.blocks[index], j) == Contents()[BlockWidth * index + j]
      {
        StoredBitOfBlock(rankSupport.blocks, index, j);
        assert StoredBit(rankSupport.blocks, BlockWidth * index + j) == Contents()[BlockWidth * index + j];
      }
      rankSupport.GetBlock(index)
    }

    function GetBit(index: nat): (bit: bool)
      requires Valid()
      requires index < BitLen()
      ensures bit == rankSupport.GetBit(index) == Contents()[index]
    {
      rankSupport.GetBit(index)
    }

    function Rank(index: nat): (r: nat)
      requires Valid()
      requires index < BitLen()
      ensures r == rankSupport.Rank(index)
      ensures r == RankAt(Contents(), index)
      ensures r == (if index == 0 then 0 else RankAt(Contents(), index - 1)) + (if Contents()[index] then 1 else 0)
    {
      RankBeforeStep(Contents(), index);
      rankSupport.Rank(index)
    }

    /** The position of the `index`-th set bit (counting from zero).
        `rankQueries` counts the rank queries the search makes: none when the
        answer is None, and two at most per pass. Every pass at least halves
        the range that still holds the answer, so there are at most
        `Log2(BitLen()) + 1` passes. */
    method Select(index: nat) returns (r: Option<nat>, ghost rankQueries: nat)
      requires Valid()
      ensures r == SelectIn(Contents(), index)
      ensures r.None? <==> index + 1 > maxRank
      ensures r.Some? ==>
                r.value < BitLen() && Rank(r.value) == index + 1 &&
                (r.value == 0 || Rank(r.value - 1) == index)
      ensures r.None? ==> rankQueries == 0
      ensures rankQueries <= 2 * Log2(BitLen()) + 2
    {
      ghost var bits := Contents();
      RankBeforeEnd(bits);
      SelectNoneIff(bits, index);
      rankQueries := 0;
      var rank := index + 1;
      if rank > maxRank {
        return None, rankQueries;
      }
      ghost var onset := SelectIn(bits, index).value;

      var start: nat, limit: nat := 0, BitLen();
      while start < limit
        invariant start <= onset < limit <= |bits|
        invariant rankQueries + 2 * Log2(limit - start) <= 2 * Log2(|bits|)
        decreases limit - start
      {
        ghost var start0, limit0 := start, limit;
        var mid := Midpoint(start, limit);
        assert start <= mid && mid < limit;
        var midRank := Rank(mid);
        var preMidRank := if mid == 0 then 0 else Rank(mid - 1);
        rankQueries := rankQueries + if mid == 0 then 1 else 2;
        assert preMidRank == RankBefore(bits, mid) by {
          if mid == 0 { assert bits[..0] == []; }
        }
        LocateOnset(bits, index, onset, mid, preMidRank, midRank);
        if midRank == rank && preMidRank == rank - 1 {
          return Some(mid), rankQueries;
        } else if preMidRank > rank {
          limit := mid - 1;
        } else if preMidRank == rank {
          limit := mid;
        } else if midRank < rank {
          start := mid + 1;
        } else {
          assert false;
        }
        NarrowHalves(start0, limit0, start, limit);
      }
      assert false;
    }
  }
}
