# uarch-bench C++ kernels in Dafny

This project models the arithmetic and traversal logic of the C++
microbenchmark kernels in `cpp-benches.cpp`. The benchmarks exist to be timed,
and timing is not modelled. What is modelled is what each kernel computes.
The kernels come in families whose members differ only in dependency shape or
addressing, and the model proves that the members of each family return the
same value:

- **Division** (`DivBenches`). `div64_templ<F, forcedep>` sums `F(k)` for
  `k = 1 .. iters`. The four `MAKE_DIV_BENCHES` variants are
  `Div64Templ(Inline(op) | NoInline(op), forcedep = true | false, ...)`. For
  every variant the result is the quotient sum modulo 2^64, read as `long`.
- **Linked lists** (`LinkedLists`). Memory is a heap of nodes addressed by
  index. A pointer is `Option<nat>`, with `None` for null, and `new` appends to
  the heap. The model covers `makeList`, `makeLists` (the `listOfLists` pool),
  `sum_counter`, `sum_sentinel`, `linkedlist_sum` (`linkedlist_counter` is
  `LinkedListSum(Counter, ...)` and `linkedlist_sentinel` is
  `LinkedListSum(Sentinel, ...)`), `sumlist` and `shuffled_list_sum`.
- **Strided stores** (`StridedStores`). Masked, strided zero stores of
  `sizeof(T)` ∈ {1, 4, 8} bytes into a byte region. The region is an immutable
  sequence, and the method returns the updated copy.
- **Decrement chain** (`AddChain`). `portable_add_chain`.
- **Table lookup** (`Crc8`). `crc8` over the all-zero `crc8_table`, and
  `crc8_bench`.
- **Sums and products** (`MulKernels`). `sum_halves`, `mul_by`, `mul_chain`
  and `mul_chain4`.
- **Indirect adds** (`IndirectAdds`). `add_indirect_inner` and
  `add_indirect_shift_inner`.

Unsigned C arithmetic is written out modulo 2^32 or 2^64 (`MachineInt.Wrap32`
and `Wrap64`). A conversion to a signed type is two's-complement
(`ToSigned`). `&` and `^` are defined on natural numbers bit by bit, and a
right shift is a division by a power of two. The target is x86-64, so `int`
is 32 bits, `long` is 64 bits, `char` is signed and memory is little-endian.
`opt_control::modify` is the identity (`MachineInt.Modify`). `sink` and
`sink_ptr` have no effect on any value, so they do not appear. `always_zero()`
is the parameter `zero` of `Div64Templ`, constrained to 0.

Undefined behaviour in the source is a precondition: a zero divisor, a null
or dangling dereference, a signed overflow, or an out-of-bounds access.

Modelling decisions where the source needed interpreting:

- In `linkedlist_sum` and `shuffled_list_sum`, `int sum += <long>` adds in
  `long` and narrows the result back to `int`. That is a narrowing
  conversion, not a signed overflow. It is modelled as modular (`ToInt32`),
  which is how gcc defines it and what C++20 requires. The `int += int` in
  `sum_counter` and `sum_sentinel`, and the `long += int` in `sumlist`, are
  real signed overflows. Those are preconditions (`FitsInt`, `FitsLong`).
- `div64_templ` loops `for (k = 1; k <= iters; k++)` with a 64-bit `k`. With
  `iters` = 2^64 − 1 the guard never fails: `k` wraps to 0 and the next
  divisor is 0. So `iters < 2^64 − 1` is required. Likewise,
  `strided_stores` requires `iters <= 2^64 − 4`, because otherwise `i += 4`
  wraps.
- The latency variant adds `sum & zero` to the divisor, where `sum` is the
  running sum and not the previous quotient. The model follows the code.
- `shuffled_list_sum` walks the one circular list at the start of its
  region, not the `listOfLists` pool.
- The pool's node values are not random. `makeList` stores 1 followed by
  zeros, and the random engine in `makeLists` is never used. So every pool
  list sums to 1.
- `portable_add_chain` calls `modify` before each of its four decrements, so
  none comes after the last decrement before the test.

## Model

| member | source | states |
|---|---|---|
| `DivBenches.Divide` | cpp-benches.cpp:35-52 | For every divisor ≥ 1, the 32-bit and 64-bit operations return the floor quotient q of their constant dividend N (q·a ≤ N < q·a + a). The portable stand-in for the 128-by-64 division returns 1. |
| `DivBenches.NoInlineIsTransparent` | cpp-benches.cpp:29-33 | `no_inline<F>` computes exactly `F`. |
| `DivBenches.Div64Templ` | cpp-benches.cpp:54-82 | When `always_zero()` is 0, all four variants (latency or throughput, inline or `no_inline`) return the same value: Σ F(k) for k = 1..iters, modulo 2^64, as `long`. |
| `DivBenches.PortableQuotientSum` | cpp-benches.cpp:49-50 | With the portable 128-bit stand-in, the quotient sum is `iters`. |
| `DivBenches.Div32SumSaturates` | cpp-benches.cpp:35-37 | Past k = 0x12345678 every 32-bit quotient is 0, so the sum stops growing. |
| `LinkedLists.Trace` | cpp-benches.cpp:153 | A traversal that reaches null returns a null-terminated chain: linked node to node, all in the heap, the last node's `next` null, and no longer than the step budget. |
| `LinkedLists.ChainIsTraced` | cpp-benches.cpp:153 | Conversely, every null-terminated chain within the step budget is what the traversal returns. |
| `LinkedLists.Walk` | cpp-benches.cpp:145 | Taking n counted steps returns n linked nodes that start at the head. |
| `LinkedLists.ChainIsWalk` | cpp-benches.cpp:142-157 | On a null-terminated chain of n nodes, n counted steps visit exactly that chain. |
| `LinkedLists.Orbit` | cpp-benches.cpp:170-173 | A walk that gets back to `first` returns linked nodes that start at the given node. The last node points to `first`, and `first` does not occur earlier after the start. |
| `LinkedLists.OrbitIsFound` | cpp-benches.cpp:170-173 | Conversely, every such ring within the step budget is found. |
| `LinkedLists.PathIsWalked` | cpp-benches.cpp:145 | Conversely, every linked path from the head is what that many counted steps visit. |
| `LinkedLists.ChainDistinct` | cpp-benches.cpp:153 | A null-terminated list never visits a node twice. |
| `LinkedLists.OrbitDistinct` | cpp-benches.cpp:170-173 | A walk that returns to `first` only at its end never visits a node twice. |
| `LinkedLists.ChainIsComplete` | cpp-benches.cpp:151-157 | Every null-terminated list in the heap is found by `sum_sentinel`'s traversal. A budget of one step per heap node is no restriction. |
| `LinkedLists.RingIsComplete` | cpp-benches.cpp:167-175 | Every circular list through `first` is found by `sumlist`'s traversal. A budget of one step per heap node is no restriction. |
| `LinkedLists.RingVisitsEachNodeOnce` | cpp-benches.cpp:167-175 | `sumlist` visits each node of the circular list exactly once before it returns to `first`. |
| `LinkedLists.MakeList` | cpp-benches.cpp:100-113 | `makeList` allocates exactly `size` nodes. It leaves every existing node unchanged and records `size` in the head. |
| `LinkedLists.MakeListShape` | cpp-benches.cpp:100-113 | `makeList(n)` gives a null-terminated chain of exactly n fresh nodes with values 1, 0, …, 0. Its head is null exactly when n = 0. |
| `LinkedLists.ListValuesSum` | cpp-benches.cpp:103-104 | A made list's values sum to 1 (0 for n = 0), and no running total overflows `int`. |
| `LinkedLists.ChainStable` | cpp-benches.cpp:117-125 | Allocating more nodes never changes the chain of an existing list. |
| `LinkedLists.MakeLists` | cpp-benches.cpp:117-125 | `makeLists` builds `LIST_COUNT` lists. Each is a chain of NODE_COUNT = 5 nodes whose count is right and whose values are 1, 0, 0, 0, 0. |
| `LinkedLists.SumCounter` | cpp-benches.cpp:142-149 | `sum_counter` returns the sum of the values of the first `size` nodes in chain order (none if `size` ≤ 0). |
| `LinkedLists.SumSentinel` | cpp-benches.cpp:151-157 | `sum_sentinel` returns the sum of the values of the null-terminated chain in chain order. |
| `LinkedLists.CounterMatchesSentinel` | cpp-benches.cpp:142-157 | When a list's `size` equals its chain length, both traversals visit the same nodes, so `sum_counter` and `sum_sentinel` agree. |
| `LinkedLists.SumWith` | cpp-benches.cpp:159-165 | The instantiated `SUM_IMPL` returns that implementation's list total. |
| `LinkedLists.PoolPass` | cpp-benches.cpp:135-137 | One pass over the pool adds every list's total into the `int` accumulator, modulo 2^32. |
| `LinkedLists.LinkedListSum` | cpp-benches.cpp:131-140 | `linkedlist_sum` returns `iters` × (sum of the pool's list totals), narrowed to `int`. |
| `LinkedLists.PoolTotalsAgree` | cpp-benches.cpp:159-165 | On a pool of lists whose counts match their chains, `linkedlist_counter` and `linkedlist_sentinel` have the same pass total, so they return the same value. |
| `LinkedLists.PoolTotalOfMadeLists` | cpp-benches.cpp:115-127 | On the pool `makeLists` builds, both implementations are free of undefined behaviour, and a pass totals the number of lists. |
| `LinkedLists.ListOfListsTotal` | cpp-benches.cpp:127 | For `listOfLists` built from an empty heap, one pass totals `LIST_COUNT`. So both kernels return `iters` × `LIST_COUNT` as `int`. |
| `LinkedLists.SumList` | cpp-benches.cpp:167-175 | `sumlist` returns the sum of the ring's values, visiting each node once in ring order. |
| `LinkedLists.ShuffledListSum` | cpp-benches.cpp:177-184 | `shuffled_list_sum` returns `iters` × the ring sum, narrowed to `int`. |
| `StridedStores.RoundEffect` | cpp-benches.cpp:204-212 | The four unrolled stores of one round zero exactly the `sizeof(T)` bytes at `((i·stride) & mask) + j·stride` for j = 0..3, and keep every other byte. |
| `StridedStores.RoundsAccumulate` | cpp-benches.cpp:203-213 | After r + 1 rounds, exactly the bytes of those rounds are zero and the rest are unchanged. |
| `StridedStores.StridedStores` | cpp-benches.cpp:198-216 | After ceil(iters/4) rounds, every byte a round stores to is 0 and every other byte is unchanged. The result is the first byte as `char`: 0 whenever iters ≥ 1, because round 0 stores at offset 0. |
| `StridedStores.TouchedBytesInRegion` | cpp-benches.cpp:200-213 | Under the caller's obligation, no byte outside the region is ever written. |
| `StridedStores.MaskConfinesStores` | cpp-benches.cpp:202-205 | A mask with mask + 3·stride + sizeof(T) ≤ region size meets that obligation for any `iters`, since x & mask ≤ mask. |
| `AddChain.PortableAddChain` | cpp-benches.cpp:230-251 | Started at a positive multiple of 4 below 2^63, the counter reaches exactly 0 after iters/4 rounds (a ghost count) without overflowing. It returns 0. |
| `Crc8.TableIndex` | cpp-benches.cpp:262 | Every table index `crc ^ byte` is below 256. |
| `Crc8.FoldInTable` | cpp-benches.cpp:261-262 | After at least one byte, the accumulator is an entry of the table. |
| `Crc8.Crc8` | cpp-benches.cpp:257-264 | `crc8` returns a value below 256. With no data it returns `crc & 0xff`, otherwise a table entry. |
| `Crc8.ZeroTableCrc` | cpp-benches.cpp:253-264 | With the all-zero `crc8_table`, `crc8` returns 0 for len ≥ 1 and `crc & 0xff` for len = 0. |
| `Crc8.Crc8Rounds` | cpp-benches.cpp:271-273 | Repeating `crc8` with its result fed back in stays below 256 and, on a non-empty buffer, is a table entry. |
| `Crc8.BenchRounds` | cpp-benches.cpp:271-273 | The do-while makes between 1 and 2^64 calls, and the number of calls is congruent to `iters` modulo 2^64. So it makes `iters` calls for `iters` ≥ 1, and 2^64 calls for `iters` = 0, where the counter wraps. |
| `Crc8.Crc8Bench` | cpp-benches.cpp:267-275 | For every `iters`, including 0, `crc8_bench` on a non-empty buffer returns a table entry. |
| `Crc8.ZeroTableBench` | cpp-benches.cpp:253-275 | With the all-zero table and a 4096-byte buffer, `crc8_bench` returns 0 for every `iters`. |
| `MulKernels.HalvesStep` | cpp-benches.cpp:287-293 | Adding one element's `>> 16` and `& 0xFFFF` extends the running high-half and low-half totals. |
| `MulKernels.HalvesReads` | cpp-benches.cpp:284-293 | Rounds read two elements each, so the loop reads an even count: `len`, or `len` + 1 when `len` is odd. |
| `MulKernels.SumHalves` | cpp-benches.cpp:282-296 | Over the elements read, `top` is the 32-bit sum of their upper 16 bits and `bottom` the 32-bit sum of their lower 16 bits. |
| `MulKernels.HalvesRecombine` | cpp-benches.cpp:288-289 | The exact high-half sum times 2^16, plus the exact low-half sum, is the sum of the elements. |
| `MulKernels.SumHalvesRecombine` | cpp-benches.cpp:282-296 | `top`·2^16 + `bottom` equals the sum of the elements modulo 2^32, so the split loses nothing. |
| `MulKernels.MulByTerm` | cpp-benches.cpp:312-313 | The term `x * y * m * i * i` has the same low 32 bits as the exact product, even though it is computed at 32 bits and then at 64 bits by the `size_t` index. |
| `MulKernels.MulBy` | cpp-benches.cpp:308-317 | `mul_by` returns Σ data[i]·data[i+1]·m·i·i over i < len − 1, modulo 2^32. |
| `MulKernels.MulChain` | cpp-benches.cpp:319-328 | `mul_chain` returns the product of the first `len` elements modulo 2^32. The unused `m` has no effect. |
| `MulKernels.LanesMultiplyToProduct` | cpp-benches.cpp:333-339 | The four stride-4 lane products multiply to the product of the first 4k elements. |
| `MulKernels.Wrap32Product4` | cpp-benches.cpp:339 | Multiplying the four wrapped lane products at 32 bits gives the low 32 bits of their exact product. |
| `MulKernels.Chain4Reads` | cpp-benches.cpp:333-338 | Rounds read four elements each, so the loop reads the least multiple of 4 that is ≥ `len`. |
| `MulKernels.MulChain4` | cpp-benches.cpp:330-342 | `mul_chain4` returns the product of the elements read modulo 2^32, whatever `m`. When `len` is a multiple of 4, that is the product of the first `len` elements, the same value as `mul_chain`. |
| `MulKernels.AllOnesProduct` | cpp-benches.cpp:319-342 | On an all-ones buffer, both chains return 1. |
| `IndirectAdds.LoadPair` | cpp-benches.cpp:388-391 | On the little-endian target, the packed 64-bit load's `>> 32` is `offsets[i-1]` and its `& 0xFFFFFFFF` is `offsets[i-2]`. |
| `IndirectAdds.ShiftLoopMatches` | cpp-benches.cpp:369-396 | Both loops hold the same `sum1` and `sum2` after every round. |
| `IndirectAdds.IndirectLoopSums` | cpp-benches.cpp:372-378 | `sum1` ends as the 32-bit sum of the values gathered at odd positions, and `sum2` as that of the even positions. |
| `IndirectAdds.OddEvenSplit` | cpp-benches.cpp:379-380 | The odd-position sum plus the even-position sum is the sum of all gathered values. |
| `IndirectAdds.AddIndirectInner` | cpp-benches.cpp:368-381 | For even len ≥ 2, `add_indirect_inner` returns Σ data[offsets[j]] over j < len, modulo 2^32. |
| `IndirectAdds.AddIndirectShiftInner` | cpp-benches.cpp:383-396 | `add_indirect_shift_inner` returns the same value as `add_indirect_inner`: the 32-bit gather sum. |
| `MachineInt.ToInt32` | cpp-benches.cpp:136 | Narrowing to `int` gives the one value in [−2^31, 2^31) that is congruent to the input modulo 2^32. |
| `MachineInt.ToInt64` | cpp-benches.cpp:64 | `(long)sum` is the one value in [−2^63, 2^63) congruent to the sum modulo 2^64. |
| `MachineInt.ToChar` | cpp-benches.cpp:215 | A byte read as x86 `char` is the one value in [−128, 128) congruent to it modulo 256. |
| `MachineInt.ToInt32Add` | cpp-benches.cpp:133-139 | Narrowing after every addition gives the same `int` as narrowing the exact total once. |
| `MachineInt.And` | cpp-benches.cpp:60 | `a & b` is at most each operand, so `sum & zero` is 0 when `zero` is 0, and `x & mask` never exceeds `mask`. |
| `MachineInt.AndLowMask` | cpp-benches.cpp:259 | AND with a mask of k low one-bits keeps the value modulo 2^k (`& 0xff`, `& 0xFFFF`, `& 0xFFFFFFFF`). |
| `MachineInt.XorBound` | cpp-benches.cpp:262 | The XOR of two k-bit values is a k-bit value. |
| `MachineInt.Wrap32OfWrap64` | cpp-benches.cpp:313 | Wrapping at 64 bits and then truncating to 32 bits is the same as truncating to 32 bits. |

## Left out

- `gettimeofday_bench`: it is a system call whose only point is its latency.
- `div128_64` with inline `div` assembly: the hardware instruction cannot be
  seen. Only the portable branch, which returns 1, is modelled.
- The internals of `opt_control` (`modify`, `sink`, `sink_ptr`,
  `always_zero`) and `HEDLEY_NEVER_INLINE`: they are compiler barriers with
  no effect on values.
- Code in headers that are not part of this model. `DIV_SPEC_X` and the
  `MAKE_DIV_BENCHES` expansion are taken as the three `DivOp`s times the four
  variants. `LIST_COUNT` is a parameter. `region` is the heap plus the index
  of its first node. `mem_args` is the `MemArgs` datatype.
- The static initialisation of `listOfLists`: it is the explicit
  `MakeLists([], listCount)`.
- The random engine and distribution in `makeLists`: they are never used.
- The extra node `makeList` allocates and never links: it is leaked and
  unused.
- `makeList` with a negative size: the array `new` throws. This is excluded
  by a precondition.
- `sum_halves_bench`, `mul_by_bench_f` and `add_indirect_f`: they only run
  their inner kernel and return 0. The data buffer `buf` is an
  uninitialised stack array. `add_indirect_f` zero-initialises `offsets`, so
  every gather there reads `buf[0]`. The inner kernels are modelled with
  `data` and `offsets` as arbitrary inputs, which covers both.
- The `strided_stores_1byte`, `_4byte` and `_8byte` wrappers: they are the
  `width` argument.
- Undefined-behaviour edges are preconditions. They are:
  - `portable_add_chain` with an input that is not a positive multiple of 4
    below 2^63;
  - `mul_by` with len = 0, because `len - 1` wraps;
  - a buffer shorter than the whole rounds `sum_halves` or `mul_chain4`
    reads;
  - the indirect adds with len odd or below 2;
  - signed overflow inside `sum_counter`, `sum_sentinel` and `sumlist`;
  - stores outside the strided-store region.
- LinkedLists.ShuffledListSum: does not exclude the one overflow left in
  `sum += sumlist(...)`. That is the `long` addition of the `int` total and
  a ring sum lying within 2^31 of the `long` limits. The model narrows
  modularly there.
- Real CRC-8: the table is deliberately all zero, so nothing is claimed about
  CRC-8 itself.
- Timing, latency and throughput: the model makes no claims about them.
- AddChain.PortableAddChain: the ghost `rounds` out-parameter counts the
  loop's rounds. The source does not return it.
