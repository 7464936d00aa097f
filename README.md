# Binary-search select over a rank structure

This project models `BinSearchSelect` from the `succinct` Rust library
(`src/select.rs`). It answers select queries ("where is the k-th set bit?")
over a packed bit store. It uses nothing but inclusive rank queries ("how many
set bits are in positions `[0, i]`?") on a rank structure it borrows. It finds
the position where the rank first reaches `k + 1` by a binary search over the
half-open range `[start, limit)`. The midpoint is computed without forming
`start + limit`.

Files and modules:

- `bitstore.dfy`, module `BitStore`: a store of 32-bit blocks read as one bit
  sequence. Bits are numbered from the most significant bit of each block, as
  the library's tests require. The module also defines `Count`, the exclusive
  rank `RankBefore(bits, i)` (the number of set bits in `[0, i)`, i.e. "rank(i - 1)"
  with rank(-1) = 0) and the inclusive rank `RankAt(bits, i)`. Lemmas show that
  rank is non-decreasing and grows by at most one per position.
- `rank.dfy`, module `Rank`: the contract of the `Rank` capability. Each answer
  is the previous answer plus the bit at that position. `RankSupport` is a
  class that stands in for the wrapped rank structure. It holds the blocks, its
  own bit length (at most 32 bits per block, with only the last block partly
  used), the bits it exposes (the first `bitLen` bits of the blocks) and the
  table of answers its `rank` gives. Its object invariant is that contract.
- `select.dfy`, module `Select`: `SelectIn`, the reference meaning of select
  (walk the bits, stop at the (k+1)-th set bit), and the duality lemmas between
  rank and select. It also holds `Midpoint` and the class `BinSearchSelect`.
  The class keeps a read-only reference to a `RankSupport` and a `maxRank`
  fixed at construction. Its forwarding queries are functions, and `Select` is
  a method with the source's `while` loop. The method is proved to return
  exactly `SelectIn` of the wrapped bits. The loop's `panic!` is an
  `assert false` that the proof shows cannot be reached. A ghost counter of
  rank queries shows that the search makes at most `2 * (Log2(bit_len) + 1)`
  of them.
- `select_scenarios.dfy`, module `SelectScenarios`: the three stores of the
  library's tests, each 1024 copies of one `u32` block. The module gives closed
  forms of their ranks and proves the select answers the tests check, asked
  through `BinSearchSelect` objects.

Two facts about the code shape the model:

- The constructor requires `BitLen() >= 1`. The code computes
  `rank_support.bit_len() - 1` without a guard (select.rs:23).
- `SparseBlock`'s set bits are at offsets 0, 16, 17 and 18. The tests' rank
  assertions show this (`rank(15) == 1`, `rank(16) == 2`, select.rs:108-111).

## Model

| member | source | states |
|---|---|---|
| `Select.BinSearchSelect.constructor` | src/select.rs:22-28 | needs a non-empty store; keeps the borrowed rank structure and sets `maxRank` to the rank of the last position, which is the population count of the store |
| `Select.BinSearchSelect.BlockLen` | src/select.rs:35-37 | gives the wrapped structure's block count; the blocks hold every bit, and at most the last block is partly used (`bit_len <= 32 * block_len < bit_len + 32`) |
| `Select.BinSearchSelect.BitLen` | src/select.rs:39-41 | gives the wrapped structure's bit length, which is the length of the bit view |
| `Select.BinSearchSelect.GetBlock` | src/select.rs:43-45 | gives the wrapped structure's block, and bit `j` of block `i` (most significant first) is bit `32*i + j` of the store wherever that position is below the bit length |
| `Select.BinSearchSelect.GetBit` | src/select.rs:47-49 | gives the wrapped structure's bit, which is the bit at that position of the store |
| `Select.BinSearchSelect.Rank` | src/select.rs:52-56 | gives the wrapped structure's rank, which is the number of set bits in `[0, index]`, and equals the rank one position earlier plus the bit at `index` |
| `Select.BinSearchSelect.Select` | src/select.rs:59-90 | returns `SelectIn` of the store; None exactly when `index + 1 > maxRank`; otherwise a position `p < bit_len` with `rank(p) == index + 1` and `p == 0` or `rank(p - 1) == index`; the loop never falls through to the panic, every pass takes one of the four branches, and `mid - 1` never underflows; it makes no rank query when the answer is None and at most `2 * (Log2(bit_len) + 1)` in all |
| `Select.Midpoint` | src/select.rs:71-73 | equals `(start + limit) / 2`; lies in `[start, limit)` when `start < limit`; `start/2 + limit/2 <= mid <= max(start, limit)`, so neither the partial sum `start/2 + limit/2` nor the result exceeds the larger operand |
| `Select.NarrowHalves` | src/select.rs:78-86 | each branch that keeps searching leaves a non-empty range at most half as long, so its `Log2` drops by at least one |
| `Select.LocateOnset` | src/select.rs:75-86 | the decision table of one pass: the found test holds exactly when `mid` is the answer; rank before `mid` above the target puts the answer left of `mid - 1`, equal to the target puts it left of `mid`; rank at `mid` below the target puts it right of `mid`; and the four tests cover every case |
| `Select.SelectIn` | src/select.rs:6-10 | select of index `k` is the position of the (k+1)-th set bit, always inside the store |
| `Select.SelectNoneIff` | src/select.rs:62-64 | select has no answer exactly when `k + 1` exceeds the population count |
| `Select.SelectIsSetBit` | src/select.rs:6-10 | an answer is a set bit with exactly `k` set bits before it |
| `Select.SelectIsOnset` | src/select.rs:60-62 | an answer `p` has inclusive rank `k + 1`, and `p == 0` or rank `k` one position earlier |
| `Select.OnsetIsSelect` | src/select.rs:78-79 | conversely, any position whose rank first reaches `k + 1` is the answer, so the answer is unique |
| `Select.SelectMonotone` | src/select.rs:6-10 | select is strictly increasing in the index |
| `Select.RankSelectRoundTrip` | src/select.rs:60-62 | for a set bit at `p`, select of `rank(p) - 1` gives back `p` |
| `BitStore.BitView` | src/select.rs:39-41 | the bits a store exposes are its first `bit_len` bits, bit `i` being bit `i % 32` of block `i / 32` |
| `BitStore.StoredBitOfBlock` | src/select.rs:43-49 | bit `j` of block `b` is bit `32*b + j` of the store, so `get_block` and `get_bit` agree |
| `BitStore.BitViewOfFullBlocks` | src/select.rs:101-102 | a store built from whole `u32` blocks, as each test's is, exposes every bit of its blocks |
| `Rank.RankSupport.GetBit` | src/select.rs:47-49 | the wrapped structure's bit at `index` is the bit at that position of the store |
| `BitStore.RankBeforeMonotone` | src/select.rs:75-76 | rank is non-decreasing and grows by at most one per position |
| `Rank.RankTableMeetsContract` | src/select.rs:52-56 | the true inclusive ranks meet the rank contract |
| `Rank.ContractGivesRank` | src/select.rs:105-114 | an answer table meeting the rank contract gives at each position the number of set bits in `[0, i]` (so rank is inclusive) |
| `Rank.ContractIsRankTable` | src/select.rs:52-56 | an answer table meets the rank contract exactly when it is the table of true ranks |
| `Rank.RankSupport.Rank` | src/select.rs:105-114 | the wrapped structure's rank of `index` is the number of set bits in `[0, index]` |
| `SelectScenarios.SparseBit` | src/select.rs:101 | the first test's block has set bits exactly at offsets 0, 16, 17 and 18 |
| `SelectScenarios.AlternatingBit` | src/select.rs:133 | the second test's block has set bits exactly at the odd offsets |
| `SelectScenarios.FullBit` | src/select.rs:146 | the third test's block has every bit set |
| `SelectScenarios.PeriodicRank` | src/select.rs:101-102 | over a store of identical blocks, rank is the block's count times the number of whole blocks plus the count inside the partial block |
| `SelectScenarios.SparseBlockRank` | src/select.rs:105-114 | counts of set bits in each prefix of the first test's block |
| `SelectScenarios.SparseRank` | src/select.rs:105-114 | closed form of the rank over the first test's store |
| `SelectScenarios.AlternatingRank` | src/select.rs:133-141 | the rank before `n` over the second test's store is `n / 2` |
| `SelectScenarios.FullRank` | src/select.rs:146-154 | the rank before `n` over the third test's store is `n` |
| `SelectScenarios.SparseRanks` | src/select.rs:105-114 | the first test's inclusive ranks: 1 at 0, 1, 2, 15; 2 at 16; 3 at 17; 4 at 18, 19, 20; 5 at 32 |
| `SelectScenarios.SparseSelect` | src/select.rs:116-127 | in the first test's store the (4q + t)-th set bit is at `32q` + 0, 16, 17 or 18 |
| `SelectScenarios.SparseSelectPastEnd` | src/select.rs:128 | the first test's store holds exactly 4096 set bits, so select(4096) is None |
| `SelectScenarios.AlternatingSelect` | src/select.rs:137-141 | in the second test's store select(i) is `2i + 1` |
| `SelectScenarios.FullSelect` | src/select.rs:150-154 | in the third test's store select(i) is `i`, and select(32768) is None |
| `SelectScenarios.SparseStoreRanks` | src/select.rs:99-114 | a `BinSearchSelect` over the first test's store gives the ranks the test checks |
| `SelectScenarios.SparseStoreSelect` | src/select.rs:116-127 | a `BinSearchSelect` over the first test's store returns `32q` + 0, 16, 17 or 18 for index `4q + t` |
| `SelectScenarios.SparseStoreSelectPastEnd` | src/select.rs:128 | a `BinSearchSelect` over the first test's store returns None from index 4096 on |
| `SelectScenarios.SparseStoreQueries` | src/select.rs:116-128 | the first test's twelve select answers, including select(400) = 3200 and select(4095) = 32754 |
| `SelectScenarios.AlternatingStoreSelect` | src/select.rs:132-141 | a `BinSearchSelect` over the second test's store returns `2i + 1` for every valid index `i` |
| `SelectScenarios.AlternatingStoreQueries` | src/select.rs:137-141 | the second test's answers 1, 3, 5, 7 and 919 |
| `SelectScenarios.FullStoreSelect` | src/select.rs:145-154 | a `BinSearchSelect` over the third test's store returns `i` below 32768 and None from 32768 on |
| `SelectScenarios.FullStoreQueries` | src/select.rs:150-154 | the third test's answers 0, 1, 2, 32767 and None |

## Left out

- `src/coding/mod.rs` (the universal codes and their round-trip test harness) is not part of this model. The harness runs over the `UniversalCode` trait and concrete unary, Elias, Fibonacci and truncated-binary codes, none of which are in the modelled files.
- The concrete rank index (`JacobsonRank`) and the block/bit packing of `storage::BitStore` are not part of this model. `RankSupport` stands in for them: a block store plus the answers its `rank` gives, constrained only by the rank contract.
- The block type is fixed to `u32`, the type every test uses, instead of the generic `R::Block`.
- Positions and counts are unbounded naturals. Only the midpoint's freedom from overflow is shown. The `u64` overflow of `index + 1` at `index == u64::MAX` and the `usize`/`u64` split of block and bit indices are not modelled.
- The borrow `&'a R` is modelled as a `const` reference to an object whose fields are all `const`. Lifetimes, and sharing between threads, are not modelled.
- `debug_assert!` is modelled as a proved `assert`. The `panic!` after the loop is modelled as a point the proof shows unreachable, so the loop's behaviour on a rank structure that breaks the contract is not modelled.
- Construction over an empty store: `bit_len() - 1` underflows in the code (a panic when overflow checks are on, a wrap to `u64::MAX` otherwise). The constructor excludes it by its precondition.
- The rank-query bound is proved with a ghost counter. Running time itself is not modelled.
