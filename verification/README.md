# PIM runtime: verified models

This project models four parts of the PIM (processing-in-memory) runtime and proves what each of them is for:

* **`SimpleHeap`**, the best-fit sub-allocator of large PIM blocks with eager coalescing and a cache of whole blocks.
* **binary16 arithmetic**, the integer-only soft floating point of `half.hpp`: rounding, `+ - * /`, `fma`, `fmod`,
  `remainder`, `remquo`, `sqrt`, conversion from doubles and integers, and the 32-bit limb product and division.
* **the address layout and the kernels' tiling**: `addr_gen`, its inverse in the trace analyser, the tile loop of the
  elementwise-add kernel, and the compute loops and reduction of the matrix-vector kernel.
* **the trace coalescer**, which turns a trace of 16-byte accesses into one of 32-byte accesses.

| files | contents |
|---|---|
| `Bits`, `Options` | powers of two and a few facts of arithmetic; a value or none |
| `HalfFormat` | the halves, and the rounding of IEEE 754-2008 section 4.3 as a definition over all halves |
| `HalfRounding` | `rounded`, `overflow`, `underflow`, `fixed2half` |
| `HalfProduct`, `HalfAlign`, `HalfSum`, `HalfFma`, `HalfMod`, `HalfSqrt`, `HalfConvert`, `Wide` | the operations |
| `FreeList`, `Fragments`, `FloatAlign`, `HeapModel` | the multimap, the fragment maps, the rounding of sizes, the heap as a value |
| `HeapInvariant`, `HeapCalls`, `HeapRuns` | what each call keeps, what it does to live allocations, and whole runs |
| `HeapCases` | calls at which the heap does less than one expects, and the states they lead to |
| `SimpleHeapClass` | the class, each method proved equal to its function in the model |
| `AddressMap`, `EltAdd`, `Gemv` | layout, inverse and tiling |
| `Coalescer` | the write buffer, the parser's loop, and what merging does to memory and to reads |

## How the parts are stated

**Halves.** A half is its 16 bits. Every finite half is a multiple of 2^-24, so `Mag` gives its magnitude as an integer
in that unit; an exact result is a rational (`Ratio`) or a square root (`Root`) in the same unit. `IsRounding` says what
IEEE 754-2008 section 4.3 says, quantifying over all halves; `RoundsTo` compares only with the neighbours, and
`RoundingIsLocal` shows that the two agree. `Delivers(mode, neg, v, z)` says that z has the sign and is the rounding of
v, and `DeliveryIsUnique` that there is only one such half. Every operation is a method with the branches and loops of
the source whose contract is stated with `Delivers`, in all four rounding modes.

**Heap.** The state is a value `Heap`; iterators become `Entry(size, base)` keys, and "used" means that a fragment has no
entry. The block allocator is the argument `answer`: a block that is apart from all blocks still out and at least
`limit` long, or none. `Inv` is the invariant between calls.

**Kernels.** A kernel is the sequence of accesses that one thread of one channel issues. Counting statements give the
multiplicity of an address in that sequence, for every thread and every channel, so that "once" means once in the grid.

**Coalescer.** A command is a value `Entry`; the 65-character buffer is an array that `AppendData` changes in place.
Memory is a map from byte addresses to pairs of digits, and `Replay` applies the writes of a trace.

## Where the code does not do what is expected of it

* `get_aligned_bytes` computes in `float`. It returns fewer bytes than requested exactly when `LosesBytes` holds, which is
  never up to 2^24 bytes and already for 2^24 + 1 (`FloatAlign.SmallAreExact`, `FloatAlign.OneByteIsLost`). So
  `HeapCalls.AllocIsLongEnough` is an equivalence.
* A request for zero bytes that takes a whole block lists it with a free fragment that the used one of size zero then
  overwrites, while the free list keeps the entry. The free list then has an entry without a fragment, and the next
  request that fits the block gets the same address again (`HeapCases.NothingTakesAll`, `HeapCases.NothingIsGivenTwice`;
  in builds with assertions the size comparison stops it). It happens to a new heap (`HeapCases.FirstRequestForNothing`).
  `HeapCalls.AllocKeeps` shows that the invariant is lost exactly then. Runs consist of all other calls; a request for
  zero bytes served from the free list overwrites its used fragment with the free one and is harmless.
* Freeing right after an allocation restores the fragments, the counters, the cache and the contents of the free list.
  The order of the free list is restored exactly when no later entry has the same size (`HeapRuns.AllocThenFree`);
  `HeapCases.OrderIsNotRestored` is a run of a new heap after which it is not.
* `divide64` in 32-bit arithmetic drops the lowest bit of the divisor. It agrees with the 64-bit branch on even divisors,
  and on an odd one exactly when quotient and remainder together stay below the even number before it and the division
  is not exact with a quotient above zero (`Wide.BranchesAgree`); for 2^32 / 3 it gives one half (`Wide.ThirdBecomesHalf`). Where the dividend's
  upper word is the even number before an odd divisor, all 32 quotient bits come out as ones, which is never right.
* The two weight loops of the matrix-vector kernel cover the weights once exactly when the number of input tiles is even
  (`Gemv.CoversWhenEven`), and read nothing twice exactly when it is even or there is at most one output tile
  (`Gemv.NoneTwiceWhenEven`).
* The coalescer merges a third write that repeats the second one's address and then overwrites the lower half with
  the second one's data (`Coalescer.RepeatClobbers`). It keeps memory after every prefix of the trace exactly when no
  write repeats in this way the one before it, the data of the two before it being different: a condition on the
  kinds, addresses and data of the trace alone (`Coalescer.MemoryKept`). In particular it keeps memory when no two
  neighbouring writes have one address.

## Model

| member | source | states |
|---|---|---|
| HalfFormat.RoundingIsLocal | external_libs/include/half.hpp:813-839 | rounding by comparing with the two neighbours is rounding as IEEE 754-2008 section 4.3 defines it over all halves, in every mode |
| HalfFormat.RoundingIsUnique | external_libs/include/half.hpp:813-839 | an exact result has one rounding in each mode |
| HalfFormat.DeliveryIsUnique | external_libs/include/half.hpp:813-839 | an exact result has one delivered half, sign included |
| HalfRounding.RoundedDelivers | external_libs/include/half.hpp:820-839 | `rounded` with truthful guard and sticky bits gives the correctly rounded half |
| HalfRounding.OverflowDelivers | external_libs/include/half.hpp:784-795 | `overflow` is the correct rounding of every result of 2^16 or more |
| HalfRounding.UnderflowDelivers | external_libs/include/half.hpp:800-811 | `underflow` is the correct rounding of every positive result below half the least half |
| HalfRounding.Fixed2HalfDelivers | external_libs/include/half.hpp:884-897 | `fixed2half` rounds a fixed-point significand correctly, normal and subnormal, whatever the number of its fractional bits |
| HalfRounding.PackDelivers | external_libs/include/half.hpp:884-897 | the same for every exponent, overflow and underflow included |
| HalfProduct.Normalise | external_libs/include/half.hpp:2629-2633 | the loops bring a finite operand to an eleven-bit significand without changing its value |
| HalfProduct.ProductDelivers | external_libs/include/half.hpp:2631-2638 | the packed product of two significands is the exact product correctly rounded |
| HalfProduct.Multiply | external_libs/include/half.hpp:2617-2640 | `*` rounds the exact product once in every mode; signs of zeros and infinities; the first NaN operand comes back quieted with its payload, and an invalid operation gives 0x7FFF |
| HalfProduct.QuotientDelivers | external_libs/include/half.hpp:2666-2675 | quotient and remainder bits give the exact quotient correctly rounded |
| HalfProduct.Divide | external_libs/include/half.hpp:2650-2677 | `/` rounds the exact quotient once in every mode; division by zero, infinities, NaN payloads and 0x7FFF for an invalid operation |
| HalfAlign.AlignJams | external_libs/include/half.hpp:2568-2575 | shifting right with a sticky bit keeps a number in its cell, also when everything is shifted out |
| HalfSum.AddMagnitudes | external_libs/include/half.hpp:2582-2590 | the sum of two magnitudes is correctly rounded, through carry and overflow |
| HalfSum.SubtractMagnitudes | external_libs/include/half.hpp:2576-2590 | the difference of two magnitudes is correctly rounded through any cancellation; an exact zero has the sign of the mode |
| HalfSum.Add | external_libs/include/half.hpp:2551-2592 | `+` rounds the exact sum once in every mode, with the zero signs of IEEE 754-2008 section 6.3; infinities, NaN payloads and 0x7FFF for infinity minus infinity |
| HalfSum.Subtract | external_libs/include/half.hpp:2601-2608 | `-` rounds the exact difference once in every mode; a NaN y comes back with its sign flipped |
| HalfFma.FmaAdd | external_libs/include/half.hpp:2846-2867 | aligned addition of an exact product and an addend is rounded once |
| HalfFma.FmaSubtract | external_libs/include/half.hpp:2846-2867 | aligned subtraction is rounded once, through massive cancellation and sticky-only subtrahends |
| HalfFma.FmaFinite | external_libs/include/half.hpp:2827-2867 | the finite nonzero case delivers x*y+z rounded once |
| HalfFma.Fma | external_libs/include/half.hpp:2808-2869 | `fma` returns x*y+z rounded once for all finite operands in every mode, with the zero signs; infinities, NaN payloads and 0x7FFF for an invalid operation |
| HalfMod.NearestQuotientIsNearest | external_libs/include/half.hpp:1409-1473 | no multiple of the divisor is nearer than the one chosen, and a tie goes to the even quotient |
| HalfMod.ShiftSubtract | external_libs/include/half.hpp:1420-1438 | the shift-subtract loop divides exactly for any exponent gap, and keeps the quotient modulo 2^32 or its last bit |
| HalfMod.RemainderBits | external_libs/include/half.hpp:1445-1446 | the exact remainder is a half, and the loop packs it |
| HalfMod.CompareTwice | external_libs/include/half.hpp:1450-1461 | the bit patterns compare as twice the remainder does with the divisor |
| HalfMod.ComplementBits | external_libs/include/half.hpp:1461-1468 | the divisor minus the remainder is computed exactly and normalised |
| HalfMod.Mod | external_libs/include/half.hpp:1409-1473 | the exact floored or nearest remainder; with the quotient asked for, that is the floored one modulo 2^30, plus one where the nearest quotient is the next |
| HalfMod.FMod | external_libs/include/half.hpp:2742-2755 | `fmod` is the exact remainder with the sign of x; special operands, NaN payloads included |
| HalfMod.IeeeRemainder | external_libs/include/half.hpp:2763-2774 | `remainder` is x minus y times the nearest quotient, exactly, a zero having the sign of x |
| HalfMod.RemQuo | external_libs/include/half.hpp:2783-2797 | the same remainder; the quotient has the sign of x/y, and its magnitude is the floored quotient modulo 2^30 plus the step to the nearest one: the nearest quotient itself below 2^30 |
| HalfSqrt.FixedSqrt | external_libs/include/half.hpp:1480-1497 | the restoring root leaves m*m + r equal to the shifted radicand with r <= 2m, for every even number of fractional bits |
| HalfSqrt.RootDelivers | external_libs/include/half.hpp:3217-3229 | with r > m as guard and r != 0 as sticky bit the root is correctly rounded |
| HalfSqrt.Sqrt | external_libs/include/half.hpp:3217-3229 | `sqrt` rounds the exact root once in every mode; zeros, infinities, negatives and NaN payloads |
| HalfConvert.Double2HalfDelivers | external_libs/include/half.hpp:995-1021 | every finite double is correctly rounded in every mode |
| HalfConvert.Double2HalfSpecial | external_libs/include/half.hpp:995-1001 | infinite doubles become infinities of their sign, NaNs become the quiet NaNs of their sign with the upper ten bits of the payload |
| HalfConvert.WordsArePacked | external_libs/include/half.hpp:1001-1017 | the branches of the conversion are `fixed2half` of the upper significand bits with the lower word as sticky bit |
| HalfConvert.Int2Half | external_libs/include/half.hpp:1076-1090 | every integer is correctly rounded in every mode |
| HalfConvert.IntegerAndDoubleAgree | external_libs/include/half.hpp:995-1090 | an integer converted directly and by way of a double that holds it gives one half |
| Wide.MulHiIsProduct | external_libs/include/half.hpp:1355-1373 | the limb product is the upper word of the whole product rounded to nearest, for all words |
| Wide.RestoringDivision | external_libs/include/half.hpp:1386-1400 | the 32-step loop gives the 64-bit quotient and its sticky bit |
| Wide.Divide64 | external_libs/include/half.hpp:1380-1400 | what the 32-bit branch computes for every dividend below the divisor, odd divisors included |
| Wide.BranchesAgree | external_libs/include/half.hpp:1380-1400 | the 32-bit and the 64-bit branch agree on every even divisor, and on an odd one if and only if a condition on quotient and remainder holds |
| Wide.ThirdBecomesHalf | external_libs/include/half.hpp:1386-1400 | a dividend and an odd divisor on which the two branches differ |
| FreeList.LowerBoundIsBestFit | runtime/include/manager/simple_heap.hpp:134 | the lower bound is a smallest sufficient entry, and exists if any does |
| FreeList.EraseInserted | runtime/include/manager/simple_heap.hpp:84 | erasing an inserted entry restores the multimap, order included |
| FreeList.InsertRemoved | runtime/include/manager/simple_heap.hpp:84 | inserting a removed entry restores the contents, and the order exactly when no later entry is of its size |
| Fragments.TiledCovers | runtime/include/manager/simple_heap.hpp:85 | every address of a tiled block lies in exactly one fragment |
| Fragments.SplitKept | runtime/include/manager/simple_heap.hpp:155-161 | splitting a free fragment keeps the block tiled, tagged and coalesced |
| Fragments.MergeLowerKeeps | runtime/include/manager/simple_heap.hpp:211-220 | merging downwards keeps all but what is said of the merged fragment, which has no free fragment before it |
| Fragments.MergeUpperKeeps | runtime/include/manager/simple_heap.hpp:223-231 | merging upwards leaves no free neighbour on either side |
| Fragments.ReleaseKeeps | runtime/include/manager/simple_heap.hpp:234-254 | a single fragment is the whole block; otherwise freeing the merged fragment restores the block's invariant |
| FloatAlign.AlignedBytesSuffice | runtime/include/manager/simple_heap.hpp:92 | the rounded size covers the request exactly when the conversion to float loses no needed byte |
| FloatAlign.UlpIsSpacing | runtime/include/manager/simple_heap.hpp:92 | between 2^k and 2^(k+1), k at least 23, floats are 2^(k-23) apart |
| FloatAlign.ToFloatIsNearest | runtime/include/manager/simple_heap.hpp:92 | the conversion of the size gives the nearest multiple of that spacing, a tie going to the even one |
| FloatAlign.SmallRequests | runtime/include/manager/simple_heap.hpp:92 | up to 2^24 bytes the size covers the request, and only an empty request gets size zero |
| FloatAlign.SmallAreExact | runtime/include/manager/simple_heap.hpp:92 | up to 2^24 bytes the size is the least sufficient multiple of 2 MiB |
| FloatAlign.OneByteIsLost | runtime/include/manager/simple_heap.hpp:92 | the least request that gets fewer bytes than it asked for |
| HeapInvariant.AllocFragmentKeeps | runtime/include/manager/simple_heap.hpp:138-163 | serving a request from a free fragment keeps the invariant |
| HeapInvariant.PlaceBlockKeeps | runtime/include/manager/simple_heap.hpp:183-193 | putting a block to use keeps the invariant |
| HeapInvariant.PopCacheKeeps | runtime/include/manager/simple_heap.hpp:166-171 | taking the block cached last keeps the books, that block being in neither list |
| HeapInvariant.ReleaseListed | runtime/include/manager/simple_heap.hpp:210-256 | merging and listing a freed fragment keeps the invariant |
| HeapInvariant.MoveToCacheKeeps | runtime/include/manager/simple_heap.hpp:234-238 | moving a whole free block to the cache keeps it with the base and length it was obtained with |
| HeapInvariant.ReleaseOldKeeps | runtime/include/manager/simple_heap.hpp:240-246 | the release loop ends within the cache limit and releases each block once |
| HeapInvariant.FreeKeeps | runtime/include/manager/simple_heap.hpp:196-257 | free keeps the invariant for every pointer |
| HeapInvariant.TrimKeeps | runtime/include/manager/simple_heap.hpp:259-265 | trim keeps the invariant, releases exactly the cached blocks, empties the cache, and leaves fragments, free list and the size in use alone |
| HeapCalls.AllocKeeps | runtime/include/manager/simple_heap.hpp:124-194 | alloc keeps the invariant unless, and only unless, a request for nothing takes a whole block |
| HeapCalls.AllocIsBestFit | runtime/include/manager/simple_heap.hpp:133-181 | alloc takes the first of the smallest sufficient free fragments of all blocks, and then touches neither the cache nor the block allocator; a size above the limit gets nothing |
| HeapCalls.AllocFallsBack | runtime/include/manager/simple_heap.hpp:165-193 | if no free fragment suffices alloc takes the block cached last, and the block allocator's answer only if the cache is empty |
| HeapCalls.AllocAddsLive | runtime/include/manager/simple_heap.hpp:124-194 | alloc adds one live allocation that was not live, and changes no other; a null result changes nothing |
| HeapCalls.AllocOfNothing | runtime/include/manager/simple_heap.hpp:154-162 | a request for nothing served from the free list changes no fragment and the list at most in order |
| HeapCalls.AllocIsLongEnough | runtime/include/manager/simple_heap.hpp:124-194 | an allocation is as long as requested exactly when the float loses no needed byte |
| HeapCalls.FreeEndsLive | runtime/include/manager/simple_heap.hpp:196-257 | free returns true exactly for null and live bases, ends that one life and no other, and changes nothing when false |
| HeapCalls.FreeReleasesOldest | runtime/include/manager/simple_heap.hpp:233-246 | freeing a whole block leaves as cache the longest suffix of the old cache and that block which is within the limit, and hands back exactly the blocks before it; any other call of free hands none back |
| HeapCalls.LiveAreDisjoint | runtime/include/manager/simple_heap.hpp:124-257 | live allocations are pairwise disjoint |
| HeapCalls.LiveAreNotFree | runtime/include/manager/simple_heap.hpp:124-257 | live allocations meet no free fragment and no cached block |
| HeapRuns.AllocThenFree | runtime/include/manager/simple_heap.hpp:138-254 | alloc from a free fragment and free at once restore everything but the order of equal entries, and say when that too |
| HeapRuns.RunKeeps | runtime/include/manager/simple_heap.hpp:124-265 | the invariant holds after every sequence of calls |
| HeapRuns.ReachableCounters | runtime/include/manager/simple_heap.hpp:183-265 | in every reachable state the counters are the sums of listed and cached lengths, and the cache is within its limit |
| HeapRuns.ReachableTiling | runtime/include/manager/simple_heap.hpp:124-257 | in every reachable state fragments tile each block, no free neighbours, no wholly free block, and the free list is exactly the free fragments |
| HeapRuns.ReachableBlocks | runtime/include/manager/simple_heap.hpp:165-265 | every block obtained is listed, cached or released, in one way only, and released at most once as it was obtained |
| HeapRuns.ReachableLengths | runtime/include/manager/simple_heap.hpp:124-265 | in every reachable state the live allocations are exactly those requested and not yet freed, and each is as long as requested exactly when the float lost no needed byte of that request |
| HeapRuns.ReachableLive | runtime/include/manager/simple_heap.hpp:124-257 | in every reachable state live allocations lie in listed blocks, are as long as requested where the float allows it, and share no byte with one another, free fragments or cached blocks |
| HeapCases.NothingTakesAll | runtime/include/manager/simple_heap.hpp:183-193 | a request for nothing that takes a whole block leaves an entry of the free list without a fragment |
| HeapCases.NothingIsGivenTwice | runtime/include/manager/simple_heap.hpp:133-193 | the next request that fits that block gets the same address |
| HeapCases.FirstRequestForNothing | runtime/include/manager/simple_heap.hpp:124-194 | both happen to a new heap |
| HeapCases.OrderIsNotRestored | runtime/include/manager/simple_heap.hpp:138-254 | a reachable heap that an allocation freed at once does not restore |
| SimpleHeapClass.SimpleHeap.constructor | runtime/include/manager/simple_heap.hpp:106-109 | a new heap is empty and satisfies the invariant |
| SimpleHeapClass.SimpleHeap.Alloc | runtime/include/manager/simple_heap.hpp:124-194 | the method does what the model's alloc does |
| SimpleHeapClass.SimpleHeap.TakeFragment | runtime/include/manager/simple_heap.hpp:138-163 | the sub-allocation from a fragment is the model's |
| SimpleHeapClass.SimpleHeap.AllocateBlock | runtime/include/manager/simple_heap.hpp:165-193 | the cache before the block allocator, as in the model |
| SimpleHeapClass.SimpleHeap.Free | runtime/include/manager/simple_heap.hpp:196-257 | the method does what the model's free does, result included |
| SimpleHeapClass.SimpleHeap.Coalesce | runtime/include/manager/simple_heap.hpp:210-254 | both merges and the move to the cache are the model's |
| SimpleHeapClass.SimpleHeap.ReleaseBlocks | runtime/include/manager/simple_heap.hpp:240-246 | the release loop is the model's, ends, and never makes a counter negative |
| SimpleHeapClass.SimpleHeap.Trim | runtime/include/manager/simple_heap.hpp:259-265 | the method does what the model's trim does |
| AddressMap.UnpackPacked | examples/monitor/elt_add_test/elt_add_fim.cpp:67-111 | unpacking undoes packing for any list of field widths and values in range |
| AddressMap.PackUnpacked | tools/trace_analyzer/trace_analyzer_ver2.py:56-107 | packing undoes unpacking for any address and any widths |
| AddressMap.AddrGen | examples/monitor/elt_add_test/elt_add_fim.cpp:67-111 | the accumulator ends as the packed layout, for any number of channel bits |
| AddressMap.AddrIsSum | examples/monitor/elt_add_test/elt_add_fim.cpp:67-111 | the address of a location in range is the sum of its row, bank, column and channel bits, each with its own weight |
| AddressMap.AddrInjective | examples/monitor/elt_add_test/elt_add_fim.cpp:60-111 | locations in range have one address only if they are the same, for every channel width |
| AddressMap.RowsInjective | examples/monitor/gemv_test/gemv_fim.cpp:60-115 | in rank 0 the same holds even for rows that overrun their field |
| AddressMap.AddrInRank | examples/monitor/elt_add_test/elt_add_fim.cpp:67-111 | an address is a multiple of 32 and lies in its rank's own range |
| AddressMap.OddTwin | examples/monitor/elt_add_test/elt_add_fim.cpp:191 | the odd neighbour of an even bank is 2^(7 + channel bits) bytes further on |
| AddressMap.AddressMapping | tools/trace_analyzer/trace_analyzer_ver2.py:27-107 | the shifts and exclusive-ors are the unpacking of the one-channel-bit layout |
| AddressMap.DecodeInverts | tools/trace_analyzer/trace_analyzer_ver2.py:56-107 | the analyser recovers row, bank, column and channel of every generated address, and the rank exactly when it is one bit |
| AddressMap.EncodeInverts | tools/trace_analyzer/trace_analyzer_ver2.py:56-107 | every address below 2^30 is the address of what the analyser prints plus its byte offset |
| EltAdd.EltAddTiles | examples/monitor/elt_add_test/elt_add_fim.cpp:181-201 | what a thread reads and writes in every tile, by channel, bank, row, column and half |
| EltAdd.TwinOf | examples/monitor/elt_add_test/elt_add_fim.cpp:187-191 | addr + 0x2000 is exactly the burst at the same row and column of the odd bank, whatever the row |
| EltAdd.ReadExactlyOnce | examples/monitor/elt_add_test/elt_add_fim.cpp:181-201 | the half burst at each row and column of the input is read at one place, of one thread of one channel, and which one |
| EltAdd.WrittenExactlyOnce | examples/monitor/elt_add_test/elt_add_fim.cpp:194-199 | the half burst at each row and column of the output is written at one place, of one thread of one channel, and which one |
| EltAdd.OutputsAvoidInputs | examples/monitor/elt_add_test/elt_add_fim.cpp:181-201 | no thread writes into bytes that any thread reads |
| EltAdd.StaysInRank | examples/monitor/elt_add_test/elt_add_fim.cpp:181-201 | a thread's accesses stay in rank 0 exactly when its last output row fits the row field |
| Gemv.InputTiles | examples/monitor/gemv_test/gemv_fim.cpp:183-265 | the loop over one parity issues exactly the tiles of that parity |
| Gemv.Compute | examples/monitor/gemv_test/gemv_fim.cpp:172-280 | the place in the log of every command: each output tile is entered, its operands and the weights of both banks follow by row and column, and only then the partial sums are written and the mode is left |
| Gemv.WeightsRead | examples/monitor/gemv_test/gemv_fim.cpp:174-278 | how often each thread reads each weight half burst, for any tile counts |
| Gemv.EachOncePerBatch | examples/monitor/gemv_test/gemv_fim.cpp:174-278 | for an even number of input tiles every weight half burst is read once per batch, by one thread |
| Gemv.CoversWhenEven | examples/monitor/gemv_test/gemv_fim.cpp:180-265 | the weights are covered exactly once if and only if the number of input tiles is even or there is no output tile |
| Gemv.NoneTwiceWhenEven | examples/monitor/gemv_test/gemv_fim.cpp:180-265 | nothing is read twice in a batch if and only if that number is even or there is at most one output tile |
| Gemv.OperandsFed | examples/monitor/gemv_test/gemv_fim.cpp:180-187 | each input half burst goes to its register once for every output tile, by one thread |
| Gemv.PartialsWritten | examples/monitor/gemv_test/gemv_fim.cpp:266-271 | each half of each partial-sum cell is written once, by one thread, and no other cell |
| Gemv.Reduce | examples/monitor/gemv_test/gemv_fim.cpp:299-316 | the bytes a reducing thread reads: the lower 16 of each of its cells, which are numbered as the compute loops number theirs |
| Gemv.ReducedOnce | examples/monitor/gemv_test/gemv_fim.cpp:299-316 | each cell of each odd bank is read by one reducing thread in one step |
| Gemv.ReducedAreWritten | examples/monitor/gemv_test/gemv_fim.cpp:266-316 | in bank 1 of bank group 0 the bytes read are exactly the lower halves of the cells written, once each; the upper halves are never read |
| Coalescer.Cmd.constructor | runtime/unit-tests/PIM_MemTraceCoalescerUnitTest.cpp:23-34 | the buffer holds the write data up to its terminator; without write data it is left unset |
| Coalescer.Cmd.AppendData | runtime/unit-tests/PIM_MemTraceCoalescerUnitTest.cpp:36-50 | the whole buffer after the in-place shift and copy, for any data |
| Coalescer.ShiftedText | runtime/unit-tests/PIM_MemTraceCoalescerUnitTest.cpp:36-50 | 32 new digits stand in front of the first 32 old ones, however many old ones there are |
| Coalescer.TraceParser.CoalesceTraces | runtime/unit-tests/PIM_MemTraceCoalescerUnitTest.cpp:101-143 | the loop computes the coalesced trace, whatever the uninitialised previous address holds |
| Coalescer.StartDoesNotShow | runtime/unit-tests/PIM_MemTraceCoalescerUnitTest.cpp:104-105 | the uninitialised previous address has no effect |
| Coalescer.StoredTwice | runtime/unit-tests/PIM_MemTraceCoalescerUnitTest.cpp:127-130 | storing a merged number is storing its two halves |
| Coalescer.StepKeeps | runtime/unit-tests/PIM_MemTraceCoalescerUnitTest.cpp:107-141 | a step does to memory what its command does if and only if it does not clash with a full entry |
| Coalescer.ClashIsRepeat | runtime/unit-tests/PIM_MemTraceCoalescerUnitTest.cpp:107-141 | a clash can be told from kinds, addresses and data of the trace alone |
| Coalescer.MemoryKept | runtime/unit-tests/PIM_MemTraceCoalescerUnitTest.cpp:101-143 | memory is the same after every prefix if and only if no write of the trace repeats the address of the write before it where that one has filled an entry, the two halves being different |
| Coalescer.NoRepeatsKeepsMemory | runtime/unit-tests/PIM_MemTraceCoalescerUnitTest.cpp:101-143 | replaying the coalesced trace gives the same memory if no two neighbouring writes have one address |
| Coalescer.RepeatClobbers | runtime/unit-tests/PIM_MemTraceCoalescerUnitTest.cpp:128-130 | a trace of three writes whose coalesced form gives other memory |
| Coalescer.EmittedCovers | runtime/unit-tests/PIM_MemTraceCoalescerUnitTest.cpp:101-143 | each command lies in the 32-byte span of an entry of its kind; a barrier is its own entry |
| Coalescer.EmittedInOrder | runtime/unit-tests/PIM_MemTraceCoalescerUnitTest.cpp:101-143 | commands keep their order |
| Coalescer.EmittedTogether | runtime/unit-tests/PIM_MemTraceCoalescerUnitTest.cpp:107-141 | two neighbouring commands share an entry if and only if the second continues the entry of the first, told on the trace alone; otherwise the next entry begins |
| Coalescer.SharesWithNeighbour | runtime/unit-tests/PIM_MemTraceCoalescerUnitTest.cpp:107-141 | the same from the kinds and addresses of the two neighbours and whether the first opened its entry |
| Coalescer.WholeTraceOpeners | runtime/unit-tests/PIM_MemTraceCoalescerUnitTest.cpp:101-143 | the number of entries is the number of commands that open one |
| Coalescer.OpenedAsIs | runtime/unit-tests/PIM_MemTraceCoalescerUnitTest.cpp:107-141 | a read or barrier that opens an entry is emitted as it is, a write with its kind and address |
| Coalescer.BarriersSeparate | runtime/unit-tests/PIM_MemTraceCoalescerUnitTest.cpp:108-112 | nothing is merged across a barrier |
| Coalescer.EmittedBySome | runtime/unit-tests/PIM_MemTraceCoalescerUnitTest.cpp:101-143 | every emitted entry comes from a command |
| Coalescer.ReadsSeeSameMemory | runtime/unit-tests/PIM_MemTraceCoalescerUnitTest.cpp:113-126 | a read meets the same memory in the coalesced trace as in the original |

## Left out

- HalfMod.RemQuo: the magnitude of the quotient is the low 30 bits of the floored one, plus one where it is rounded up, because the code keeps no more of it; without a finite x and a nonzero y nothing is promised of it.
- HalfConvert.Int2Half: does not model the overflow of negating the least value of a two's-complement type; the integer is unbounded.
- Wide.MulHiIsProduct: models rounding to nearest only; rounding toward infinity ignores the low 16 bits of the product.
- Wide.Divide64: requires the upper word of the dividend to be below the divisor; otherwise the quotient does not fit a word.
- AddressMap.AddrGen: words are unbounded; with more than 30 - (channel bits - 6) rank bits the source drops bits above 2^64. The address mask of the RADEON7 build is not modelled.
- EltAdd.EltAddTiles: models the tile loop only, with the starting row as a parameter; how the kernel derives that row from two pointers, and the mode changes around the loop, are left out.
- Gemv.Compute: models the build with all kernel stages enabled; parking and the mode changes before and after the compute loops are left out, and so is `int` overflow of the tile products.
- Gemv.Reduce: models which bytes are read, not the numeric sum, which adds bytes of all tiles into one output.
- Gemv.ReducedAreWritten: joins reads and writes in bank 1 of bank group 0, where the compute loops address their writes; that all-bank mode repeats a write in the other odd banks is left out with the mode transitions.
- Coalescer.TraceParser.CoalesceTraces: requires write data of 32 digits, the 16 bytes of one access; shorter data leave old characters in the buffer.
- HeapRuns.RunKeeps: runs leave out the request for zero bytes that takes a whole block, after which the invariant is false.
- FloatAlign.AlignedBytesSuffice: does not model the conversion back to `size_t` for requests near 2^64, where the result does not fit.
- SimpleHeapClass.SimpleHeap.Alloc: `device_id`, logging and the PIM base pointer are left out; the block allocator's answer is an argument.
- Iterators into the free list stored in fragments become (size, base) keys; lookups of neighbours in the ordered maps become functions on their keys.
- Transcendental functions, lookup tables, exception flags, the F16C and `HALF_ARITHMETIC_TYPE` builds, and rounding in indeterminate mode of half.hpp.
- HIP and OpenCL device code, inline assembly, fences and memory copies: kernels are modelled as the accesses they issue.
- The single-bank, all-bank and PIM mode transitions and the execution of CRF instructions, whose bodies are not in the repository.
- The weight cache in runtime/source/PimRuntime.cpp, whose key omits an argument of the computation it caches.
- Parsing of trace files, comparison of traces, and the production coalescer for emulator traces.
- API wrappers, configuration readers, profiling and samples, which would only add easy members.
