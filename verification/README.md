# A model of the Micrium memory manager and of smaller arithmetic cores

This project models parts of a uC/OS-III port for an STM32F4 in Dafny and proves properties of the
model. `dafny verify dfyconfig.toml` verifies the whole project.

| file | models |
|---|---|
| WordArithmetic | 32-bit words, remainders, powers of two |
| SegmentArithmetic | segments of memory: the allocation cursor, the size calculation, remaining sizes |
| MemoryPool | one pool as a value: address validator, get, free, used-block indices |
| MemPoolObject | `struct mem_pool` as a class with the operations on one object |
| TableLinks, TableSpace | the two-dimensional linked table of segments and pools as values, and every region that was handed out |
| MemoryTable | the globals of lib_mem.c as a class: initialization, heap allocation, pool creation |
| MemoryOperations | set, clear, copy, move and compare by words and octets |
| LinearCongruential | the random number generator of lib_math.c |
| Crc16 | the table-driven CRC, with generator x^16 + x^12 + x^5 + 1 as in section 2 of ITU-T V.41 and zero initial register |
| TwoBitErrors | the period of that generator, and the two-bit errors that its CRC misses |
| Timestamps, InterruptMeasure, ZeroCounting | parts of cpu_core.c |
| OctetOrder | the any-size octet-order copies of lib_mem.h |

## How the source is rendered

- Addresses, sizes and counts are naturals below 2^32, and every sum, difference and product that
  can wrap in the source wraps here. Null is address 0.
- `LIB_MEM_CFG_ARG_CHK_EXT_EN` is the parameter `argChk`; both builds are modelled. Where the
  unchecked build relies on its caller, the contracts say what it relies on.
- A segment, like every C object, ends where the address after its last octet is still a 32-bit
  number (`TopOfMemory` shows what happens one octet further).
- The linked table exists twice: as objects whose pointer fields the methods update, and as a ghost
  value of type `Table`, whose invariant holds by its type. `Mem.Valid` says that the two agree, so
  each method that ensures `Valid` keeps the whole invariant: both directions of all links, the
  order and extent of the segments, cursor accounting, and the separation of all regions ever
  handed out (`TableIsSafe` spells it out).
- A pool's pointer array is a Dafny array; the region of the heap that it occupies in C is recorded
  like any other region.
- A call is one atomic step; critical sections and interrupt masking do not appear. The timer is a
  non-decreasing tick that a call receives as an argument, reduced modulo the timer word; calls of
  InterruptMeasure receive the reading itself, and `BetweenIsTime` relates it to ticks.
- Polynomials over GF(2) are finite sets of exponents; only the program part of Crc16 and the
  squaring of words in TwoBitErrors use bit-vectors.

## Where the code and its documentation differ

- The overflow tests of Mem_SegCalcTotSize miss wrapped products that exceed both operands
  (UCOSIII/uC-LIB/lib_mem.c:2307-2312): `OverflowMissed`. The requests that overflow without being rejected
  are exactly those of `Unnoticed` (`CalcDecides`). In a creation this has two effects in the checked build.
  Blocks whose size wraps never yield a pool (`CreatesIff`), but the creation may fail only after memory has been
  taken, exactly as `FailsLateIff` says (`OversizedLate`). A pointer array whose size wraps
  (`PtrsOverflowMissed`) can be overrun, exactly as `OverrunsIff` says (`ArrayOverrun`).
- Mem_SegGetSizeRem wraps when the padding exceeds the remaining size
  (UCOSIII/uC-LIB/lib_mem.c:960-964): `SizeRemWraps`, with the exact condition in `SizeRemIsLargest`.
- Mem_PoolBlkIsValidAddr can accept an address in front of the first block when the alignment is
  not a power of two (UCOSIII/uC-LIB/lib_mem.c:2145-2149): `AlignThreeFooled`, with the exact condition in `ValidatorExact`.
- Mem_PoolBlkFree of the unchecked build overwrites the slot of another block when it is passed
  something that is not in use (UCOSIII/uC-LIB/lib_mem.c:1929-1941): the exact condition is in `UncheckedFreeConserves`.
- Mem_PoolCreate for memory identical to the heap's own checks the blocks, and records the start of the
  pool, as if the pointer array were not taken from that memory first (UCOSIII/uC-LIB/lib_mem.c:1425, 1451).
  The recorded start is wrong exactly when the array is longer than the padding in front of the blocks
  (`RecordedStart`, `HeapNamed`); then the checked build can free only the blocks of `NamedBlkFreed`, and never the
  last one (`MisplacedBlkLost`). For sizes that fit 32 bits the creation fails late exactly when array and blocks
  fit separately but not together (`LateFailureIff`, `HeapNamedLate`); for all sizes `FailsLateIff` says when.

## Model

| member | source | states |
|---|---|---|
| SegmentArithmetic.Pad | UCOSIII/uC-LIB/lib_mem.c:2276-2289 | the offset lies below the alignment and leads to a multiple of it |
| SegmentArithmetic.CalcIsTotSize | UCOSIII/uC-LIB/lib_mem.c:2291-2329 | either build returns the documented size for every request whose size fits in 32 bits, and for no other; so the checked build rejects no request that fits |
| SegmentArithmetic.CalcDecides | UCOSIII/uC-LIB/lib_mem.c:2291-2329 | what both builds return for every request: the documented size modulo 2^32, except that the checked build returns 0, and that exactly for the requests that do not fit in 32 bits and are not `Unnoticed` (the stride fits, its product with the number of blocks wraps to no less than the stride, and nothing else overflows) |
| SegmentArithmetic.OverflowMissed | UCOSIII/uC-LIB/lib_mem.c:2307-2312 | the overflow tests are incomplete: a request of more than 4 GiB, `Unnoticed` in that sense, for which the checked build returns a small size |
| SegmentArithmetic.SegAllocSpec | UCOSIII/uC-LIB/lib_mem.c:2380-2413 | an allocation succeeds exactly when padding and size fit what remains; it returns the first aligned address, moves the cursor just behind the block, keeps next + remaining equal to the end of the segment, and otherwise moves nothing |
| SegmentArithmetic.UncheckedAllocInside | UCOSIII/uC-LIB/lib_mem.c:2388-2413 | without argument checks, a block that was handed out lies inside the segment if and only if padding and size did not wrap |
| SegmentArithmetic.UncheckedAllocEscapes | UCOSIII/uC-LIB/lib_mem.c:2388-2413 | a wrapped request that the unchecked build serves beyond the segment |
| SegmentArithmetic.TopOfMemory | UCOSIII/uC-LIB/lib_mem.c:2400-2406 | a segment that ends at the last address: the checked build refuses the block that ends there, the unchecked build serves it |
| SegmentArithmetic.TotSizeStep | UCOSIII/uC-LIB/lib_mem.c:2291 | one more block costs its padding and its size; the block after n lies one stride further |
| SegmentArithmetic.BlkAligned | UCOSIII/uC-LIB/lib_mem.c:2380-2386 | every block of the closed form is aligned |
| SegmentArithmetic.ClosedFormIsLoop | UCOSIII/uC-LIB/lib_mem.c:1475-1496 | for every n, and in the checked build whether or not the size fits 32 bits: n successive allocations all succeed if and only if the closed-form size fits what remains; they then consume exactly that size and yield exactly the blocks at start + padding + stride * k |
| SegmentArithmetic.StopsShort | UCOSIII/uC-LIB/lib_mem.c:1475-1496 | a run of allocations that is cut short stops at a cursor from which the next block does not fit |
| SegmentArithmetic.RestTooLarge | UCOSIII/uC-LIB/lib_mem.c:1475-1496 | what is left to allocate then takes more than remains |
| SegmentArithmetic.FormLater | UCOSIII/uC-LIB/lib_mem.c:2380-2386 | blocks that are allocated n octets further up are those from the original start if and only if n stays within the padding in front of them |
| SegmentArithmetic.RunIsSafe | UCOSIII/uC-LIB/lib_mem.c:2367-2414 | after any sequence of requests of any sizes and alignments in the checked build: every region handed out is aligned as asked, inside the segment, and apart from every other, and the cursor still accounts for the segment |
| SegmentArithmetic.ApartIff | UCOSIII/uC-LIB/lib_mem.c:2400-2408 | regions being apart means that they have no octet in common |
| SegmentArithmetic.ShortfallIsLeast | UCOSIII/uC-LIB/lib_mem.c:786-805 | the shortfall that a failed heap request reports is the least additional space with which it would succeed: any extra space suffices if and only if it is at least that |
| SegmentArithmetic.SizeRemIsLargest | UCOSIII/uC-LIB/lib_mem.c:952-969 | Mem_SegGetSizeRem is exactly the bound below which requests succeed, if and only if the padding fits what remains |
| SegmentArithmetic.SizeRemIs | UCOSIII/uC-LIB/lib_mem.c:952-969 | Mem_SegGetSizeRem is the remaining size less the padding, or 2^32 more when the padding exceeds it |
| SegmentArithmetic.SizeRemWraps | UCOSIII/uC-LIB/lib_mem.c:960-964 | an input for which the remaining size wraps to 4 GiB - 1 |
| MemoryPool.ValidBeforeFirst | UCOSIII/uC-LIB/lib_mem.c:2145-2149 | before the first block the validator accepts an address if and only if its distance to the first block is what the stride leaves of 2^32 |
| MemoryPool.ValidIffBlkOrFooled | UCOSIII/uC-LIB/lib_mem.c:2105-2152 | for any alignment, the validator accepts exactly the blocks and, in layouts with a certain padding, one address more |
| MemoryPool.ValidatorExact | UCOSIII/uC-LIB/lib_mem.c:2105-2152 | the validator accepts exactly the blocks that the creation allocates, if and only if the padding is smaller than the remainder of 2^32 by the stride (or that remainder is 0) |
| MemoryPool.PowerOfTwoExact | UCOSIII/uC-LIB/lib_mem.c:2145-2149 | an alignment that divides 2^32 is never fooled |
| MemoryPool.AlignThreeFooled | UCOSIII/uC-LIB/lib_mem.c:2145-2149 | a layout in RAM with alignment three whose validator accepts an address that is no block |
| MemoryPool.LaterValid | UCOSIII/uC-LIB/lib_mem.c:2105-2152 | when blocks lie further up than their recorded start, the validator accepts exactly those that the displacement moves onto a block of the recorded layout |
| MemoryPool.LaterFreed | UCOSIII/uC-LIB/lib_mem.c:1882-1945 | so of such blocks the checked build can free exactly those in use that it moves there |
| MemoryPool.GetConserves | UCOSIII/uC-LIB/lib_mem.c:1704-1724 | a get succeeds exactly while a block is left, with a block that nobody held; pointers stay a permutation of the blocks |
| MemoryPool.FreeConserves | UCOSIII/uC-LIB/lib_mem.c:1882-1945 | in the checked build a free of any address succeeds exactly for a block in use, keeps the permutation, and otherwise changes nothing |
| MemoryPool.FreeErrors | UCOSIII/uC-LIB/lib_mem.c:1882-1937 | the error of every checked free: NULL_PTR for null, none for a block in use, INVALID_BLK_ADDR_IN_POOL for a free block, INVALID_BLK_ADDR for any other address, except that the one which fools the validator gets POOL_FULL when nothing is in use and INVALID_POOL otherwise |
| MemoryPool.ReleaseIs | UCOSIII/uC-LIB/lib_mem.c:1913-1942 | the end of a free, in both builds and for any pool: POOL_FULL for a full one; the first slot in use that holds the block is overwritten by the one at the index, which then holds the block; a block in no such slot is INVALID_POOL in the checked build and overwrites the slot at the index in the other |
| MemoryPool.LateErrorsOnlyFooled | UCOSIII/uC-LIB/lib_mem.c:1913-1937 | the POOL_FULL branch and the final INVALID_POOL branch of the checked free are taken for an address if and only if it is the one that fools the validator |
| MemoryPool.LateErrorsUnreachable | UCOSIII/uC-LIB/lib_mem.c:1913-1937 | so no address reaches these two branches, if and only if the padding does not fool the validator |
| MemoryPool.UncheckedFreeConserves | UCOSIII/uC-LIB/lib_mem.c:1913-1941 | the unchecked free keeps the pool a permutation if and only if the block is in use or the pool is full |
| MemoryPool.Run | UCOSIII/uC-LIB/lib_mem.c:1659-1946 | any sequence of gets and frees with arbitrary arguments from the created pool, with the ledger of blocks that its caller holds: blocks and ledger are conserved |
| MemoryPool.RunConserves | UCOSIII/uC-LIB/lib_mem.c:1659-1946 | after any such sequence: the pool is one of which `BlkFree` gives every error, the held blocks are exactly those behind the free prefix and as many as are missing from it, a get of a size that a block has succeeds exactly while fewer than all are held and reports POOL_EMPTY otherwise, any other size is INVALID_BLK_SIZE, a get returns a block that nobody holds, a free succeeds exactly for a held block, and a failing call changes nothing |
| MemoryPool.UncheckedRunConserves | UCOSIII/uC-LIB/lib_mem.c:1704-1724 | the unchecked build, for any distinct blocks wherever they are recorded: after any sequence of gets of any sizes and frees of held blocks the blocks are conserved, a get succeeds exactly while fewer than all are held and returns a block that nobody holds, and a free of a held block succeeds |
| MemoryPool.BuildsAgree | UCOSIII/uC-LIB/lib_mem.c:1882-1945 | a caller that frees only blocks it holds and asks only for sizes that a block has gets the same pool and the same ledger from both builds, over every sequence of calls |
| MemoryPool.UsedAtRange | UCOSIII/uC-LIB/lib_mem.c:1795-1814 | the used-block index is accepted exactly below the number of used blocks, whatever the unsigned wrap makes of it |
| MemoryPool.IndexOfHeld | UCOSIII/uC-LIB/lib_mem.c:2043-2067 | the index of a block exists exactly while the block is in use, and looking that index up gives the block back |
| MemoryPool.IndexOfFree | UCOSIII/uC-LIB/lib_mem.c:2043-2067 | a block that is not in use gets the index 2^32 - 1, which the lookup rejects, with POOL_FULL exactly when nothing is in use and INVALID_POOL otherwise |
| MemoryPool.HeldAtIndex | UCOSIII/uC-LIB/lib_mem.c:1795-1822 | conversely every index below the number of used blocks leads to a block in use whose index it is |
| MemoryPool.GetKeepsIndices | UCOSIII/uC-LIB/lib_mem.c:1716-1718 | a get leaves every index as it was and gives the new block the next one |
| MemoryPool.FreeMovesOneIndex | UCOSIII/uC-LIB/lib_mem.c:1921-1941 | a free gives the freed index to the block that had the highest one and moves no other |
| MemPoolObject.MemPool.Clr | UCOSIII/uC-LIB/lib_mem.c:1004-1042 | every field of the pool object is cleared |
| MemPoolObject.MemPool.AllocSeg | UCOSIII/uC-LIB/lib_mem.c:2367-2414 | the method moves the cursor fields as `SegAlloc` says |
| MemPoolObject.MemPool.AllocBlks | UCOSIII/uC-LIB/lib_mem.c:1475-1496 | the loop fills the pointer array as `SegAllocs` says, complete or up to the first failure |
| MemPoolObject.MemPool.BlkGet | UCOSIII/uC-LIB/lib_mem.c:1659-1725 | each error exactly for its arguments and state, in the order of the source; otherwise the block behind the decremented index; the call is the get of the sequences of `RunConserves` and `UncheckedRunConserves` |
| MemPoolObject.MemPool.BlkFree | UCOSIII/uC-LIB/lib_mem.c:1859-1946 | the error of every free: POOL_FULL exactly for a full pool in the unchecked build, and in the checked one, for every pool that has its blocks, each of the six outcomes exactly for its addresses; the call is the free of those sequences |
| MemPoolObject.MemPool.BlkGetUsedAtIx | UCOSIII/uC-LIB/lib_mem.c:1763-1823 | the block of `UsedAt`, after the error checks of the checked build |
| MemPoolObject.MemPool.BlkIxGet | UCOSIII/uC-LIB/lib_mem.c:1986-2069 | each error exactly for its block and state, in the order of the source; the index counts back from the end to the first slot in use that holds the block, and is 2^32 - 1 with every error; the searches are loops |
| TableLinks.WalkVisits | UCOSIII/uC-LIB/lib_mem.c:1360-1391 | from any segment the links lead through the list one by one, forwards to null and backwards to null |
| TableLinks.PoolsVisited | UCOSIII/uC-LIB/lib_mem.c:1515-1526 | from the head of a segment the links lead through exactly its pools and end |
| TableLinks.SplicedSegList | UCOSIII/uC-LIB/lib_mem.c:1500-1513 | after a new segment is spliced in, the list of segments is the old one with it inserted, doubly linked and without repetition |
| TableLinks.SplicedColumns | UCOSIII/uC-LIB/lib_mem.c:1500-1513 | splicing keeps every pool list, each object naming its segment head, and starts an empty one |
| TableLinks.PushedSegList | UCOSIII/uC-LIB/lib_mem.c:1515-1526 | adding a pool to a segment keeps the list of segments |
| TableLinks.PushedColumns | UCOSIII/uC-LIB/lib_mem.c:1515-1526 | adding a pool to a segment puts it first in the pool list of that segment, doubly linked, and keeps all other pool lists |
| TableLinks.SplicedOrdered | UCOSIII/uC-LIB/lib_mem.c:1356-1393 | segments stay in ascending order without overlap when one is inserted where the search stopped |
| TableSpace.PlaceOne | UCOSIII/uC-LIB/lib_mem.c:2367-2414 | one allocation from any segment of the table keeps all segments ordered and accounted for, and its region apart from every region handed out before from any segment |
| TableSpace.PlaceRun | UCOSIII/uC-LIB/lib_mem.c:1475-1496 | the same for a run of pool blocks, complete or cut short |
| TableSpace.BlkRegionsAt | UCOSIII/uC-LIB/lib_mem.c:1475-1495 | the k-th region of such a run is the k-th block with its size and alignment |
| TableSpace.StopDecides | UCOSIII/uC-LIB/lib_mem.c:1356-1391 | the single segment at which the search stops decides whether any segment of the table is identical to the requested one and whether any overlaps it |
| TableSpace.TableIsSafe | UCOSIII/uC-LIB/lib_mem.c:1356-1526 | in every state: the list from Mem_PoolTbl visits each segment once and ends, segments ascend without overlapping, next + remaining equals the end of every segment, and every region ever handed out is aligned, inside its segment and apart from every other |
| TableSpace.TakeOne | UCOSIII/uC-LIB/lib_mem.c:2367-2414 | the table after one allocation is again a sound table, with exactly the new region added |
| TableSpace.AddSegment | UCOSIII/uC-LIB/lib_mem.c:1393-1399 | the table with a new segment is again a sound table |
| TableSpace.AddPool | UCOSIII/uC-LIB/lib_mem.c:1515-1526 | the table with a new pool behind a segment head is again a sound table |
| MemoryTable.CompareIs | UCOSIII/uC-LIB/lib_mem.c:1362-1386 | the three-way overlap test finds exactly the overlapping segments that are not identical |
| MemoryTable.HeapPlanExact | UCOSIII/uC-LIB/lib_mem.c:1291-1341 | when the true sizes fit 32 bits, the checks for a pool in the heap pass exactly when pointer array and blocks fit together, and otherwise report exactly the octets missing |
| MemoryTable.SegPlanExact | UCOSIII/uC-LIB/lib_mem.c:1401-1445 | the same for a pool in dedicated memory, where the heap must hold the pointer array and the segment the blocks |
| MemoryTable.PtrsOverflowMissed | UCOSIII/uC-LIB/lib_mem.c:2307-2312 | for 2^30 + 3 blocks the checked build computes 12 octets for the pointer array |
| MemoryTable.PtrsCalc | UCOSIII/uC-LIB/lib_mem.c:1291-1308 | for every number of blocks the checked build computes for the pointer array exactly what the allocation then takes, or 0 |
| MemoryTable.PtrsUnnoticed | UCOSIII/uC-LIB/lib_mem.c:2291-2324 | an array of more than 4 GiB escapes the overflow tests if and only if it wraps to two pointers or more and these and their padding fit 32 bits |
| MemoryTable.PtrsRejected | UCOSIII/uC-LIB/lib_mem.c:1291-1308 | every other number of blocks of 2^30 or more is rejected with HEAP_OVF |
| MemoryTable.PlanIsVerdict | UCOSIII/uC-LIB/lib_mem.c:1289-1445 | when the true sizes fit 32 bits, the checks of either build decide as those sizes call for, for every table and request |
| MemoryTable.HeapPlanDecides | UCOSIII/uC-LIB/lib_mem.c:1291-1341 | for every pool in the heap, of whatever sizes: the error and the octets that the checked build reports, HEAP_OVF with 0 octets exactly when a size is rejected or both together exceed 32 bits, HEAP_EMPTY with what the sizes modulo 2^32 miss |
| MemoryTable.SegPlanDecides | UCOSIII/uC-LIB/lib_mem.c:1401-1445 | the same for every pool in dedicated memory: HEAP_OVF, HEAP_EMPTY, SEG_OVF and SEG_EMPTY, each with its octets |
| MemoryTable.PlanErrs | UCOSIII/uC-LIB/lib_mem.c:1289-1445 | the checks report an overlap exactly for a clash, and no argument error |
| MemoryTable.PlanLeavesRoom | UCOSIII/uC-LIB/lib_mem.c:1289-1453 | whatever overflows in the checked build: once the checks pass, what is allocated for the pointer array fits the heap |
| MemoryTable.PassesIff | UCOSIII/uC-LIB/lib_mem.c:1289-1445 | for every request, the checks of the checked build pass if and only if nothing clashes, the array as computed fits, and the blocks fit or wrap unnoticed to a size that does |
| MemoryTable.MetOverlapping | UCOSIII/uC-LIB/lib_mem.c:1367-1388 | what the search meets where it stops tells whether any segment of the table clashes with the request |
| MemoryTable.ClashesIff | UCOSIII/uC-LIB/lib_mem.c:1367-1388 | a request clashes if and only if it has an octet in common with a segment of the table that is not the same memory |
| MemoryTable.RunDecides | UCOSIII/uC-LIB/lib_mem.c:1449-1496 | once the checks have passed, the loop allocates all blocks if and only if the blocks truly fit what is left, whatever sizes the checks computed |
| MemoryTable.NoLateFailure | UCOSIII/uC-LIB/lib_mem.c:1449-1496 | once the checks have passed, the sizes fit 32 bits, and the request does not name the heap, neither of the two allocation-failure branches can be taken, and every block lies where the checks assumed it |
| MemoryTable.LateFailureIff | UCOSIII/uC-LIB/lib_mem.c:1401-1493 | in either build, for sizes that fit 32 bits: a request passes the checks and cannot be served if and only if it names the memory of the heap, and pointer array and blocks each fit that memory alone but not together |
| MemoryTable.FailsLateIff | UCOSIII/uC-LIB/lib_mem.c:1289-1493 | for every request in range, of any sizes: the checked build passes its checks and then fails in the loop if and only if nothing clashes, the array as computed fits, and the blocks wrap unnoticed to a size that fits; or, for the memory of the heap, they fit it without the array, be it by such a wrap, and not behind the array |
| MemoryTable.OversizedLate | UCOSIII/uC-LIB/lib_mem.c:1289-1493 | 131073 blocks of 32769 octets from a heap of 1 MiB, by null address or by the address of the heap: both pass the checks and fail in the loop |
| MemoryTable.OverrunsIff | UCOSIII/uC-LIB/lib_mem.c:1447-1495 | for every request in range, the loop of the checked build stores more pointers than the array holds if and only if the checks pass, the size of the array wraps, and the blocks fit for one pointer more than the wrapped array holds |
| MemoryTable.ArrayOverrun | UCOSIII/uC-LIB/lib_mem.c:1447-1495 | 2^30 + 3 blocks of one octet in dedicated memory: the array is 12 octets, and all blocks are allocated |
| MemoryTable.CreatesIff | UCOSIII/uC-LIB/lib_mem.c:1289-1496 | a creation whose outcome is `Decided` succeeds if and only if nothing clashes and pointer array and blocks truly fit (`Suffices`), in the checked build for every request that does not overrun its array (`OverrunsIff`); its blocks then lie one stride apart from the first aligned address behind what was taken before; a late failure leaves exactly what was taken |
| MemoryTable.DecidedExactly | UCOSIII/uC-LIB/lib_mem.c:1289-1496 | when the sizes fit 32 bits and the request does not name the heap, error and missing octets are those that the true sizes call for: what both, or the array alone, or the blocks miss; and a failure changes nothing |
| MemoryTable.LateShortfallIs | UCOSIII/uC-LIB/lib_mem.c:1481-1493 | what a late failure reports: the octets that the blocks which are left miss, when their size fits 32 bits; 0 when that size is rejected, and otherwise what the wrapped size makes of it |
| MemoryTable.LateShortfallIsLeast | UCOSIII/uC-LIB/lib_mem.c:1481-1493 | when that size fits 32 bits, it is the least extra space with which the loop would have gone on to the end |
| MemoryTable.LateRest | UCOSIII/uC-LIB/lib_mem.c:1475-1493 | after a late failure the blocks that are left do take more than remains |
| MemoryTable.LateReport | UCOSIII/uC-LIB/lib_mem.c:1475-1493 | so a creation that passes the checks and fails reports SEG_EMPTY and exactly what the remaining blocks miss, when that fits 32 bits |
| MemoryTable.CreationMoves | UCOSIII/uC-LIB/lib_mem.c:1447-1496 | a creation moves the cursor of the heap behind the pointer array and that of the segment behind the last block, and leaves every other segment and every extent as it was |
| MemoryTable.CreationRegions | UCOSIII/uC-LIB/lib_mem.c:1447-1496 | it hands out one region for the pointer array from the heap and then one for every block, in order, from the segment |
| MemoryTable.CreationLinks | UCOSIII/uC-LIB/lib_mem.c:1500-1526 | it adds the pool as a new segment without pools, or in front of the pools of its segment |
| MemoryTable.CreatedPool | UCOSIII/uC-LIB/lib_mem.c:1530-1540 | every created pool is laid out for the validator and meets what getting and freeing its blocks require; its recorded size is that of its blocks, from its recorded start to its recorded end; its stride needs no separate bound |
| MemoryTable.RecordedStart | UCOSIII/uC-LIB/lib_mem.c:1425-1533 | the blocks of a created pool lie where its recorded start puts them, unless the request named the memory of the heap and the pointer array is longer than the padding in front of the blocks |
| MemoryTable.CreatedPoolIsRun | UCOSIII/uC-LIB/lib_mem.c:1425-1540 | a created pool is the pool with which every sequence of gets and frees begins, under exactly the same condition |
| MemoryTable.CreatedPoolUnchecked | UCOSIII/uC-LIB/lib_mem.c:1530-1540 | for the unchecked build every created pool, misplaced or not, has distinct blocks and is one with which its sequences of gets and frees begin |
| MemoryTable.NamedBlkFreed | UCOSIII/uC-LIB/lib_mem.c:1425-1533 | of each block of a pool in the memory of the heap: the checked build can free it while it is in use if and only if the pointer array has moved it onto a block of the recorded layout |
| MemoryTable.MisplacedBlkLost | UCOSIII/uC-LIB/lib_mem.c:1425-1533 | when the blocks are misplaced, it rejects every attempt to free the last one |
| MemoryTable.HeapNamed | UCOSIII/uC-LIB/lib_mem.c:1425-1533 | a request that names a heap at 0x20000000 and gets a pool whose recorded start is the address of its pointer array |
| MemoryTable.HeapNamedLate | UCOSIII/uC-LIB/lib_mem.c:1401-1493 | a request that names it, fits 32 bits, passes the checks and fails in the loop |
| MemoryTable.Mem.constructor | UCOSIII/uC-LIB/lib_mem.c:98-99 | before Mem_Init the table is empty |
| MemoryTable.Mem.Init | UCOSIII/uC-LIB/lib_mem.c:163-197 | Mem_Init establishes the table that holds the heap alone, linked to nothing else |
| MemoryTable.Mem.FindSeg | UCOSIII/uC-LIB/lib_mem.c:1356-1391 | the search over the linked objects finds an identical segment, a clash, or the gap into which the request fits |
| MemoryTable.Mem.Take | UCOSIII/uC-LIB/lib_mem.c:2367-2414 | an allocation from a segment of the table keeps the table sound and adds exactly the region it hands out |
| MemoryTable.Mem.ChooseSeg | UCOSIII/uC-LIB/lib_mem.c:1343-1399 | the error is INVALID_SEG_OVERLAP if and only if some segment of the table overlaps the request without being identical to it |
| MemoryTable.Mem.Choose | UCOSIII/uC-LIB/lib_mem.c:1289-1445 | the segment and the decision of the checks are those of `Head` and `PlanOf`, which `PlanIsVerdict` and `PassesIff` characterise |
| MemoryTable.Mem.CheckArgs | UCOSIII/uC-LIB/lib_mem.c:1252-1275 | each argument error exactly for its arguments, in the order of the source |
| MemoryTable.Mem.Push | UCOSIII/uC-LIB/lib_mem.c:1515-1526 | the pointer updates yield the table with the pool behind its segment head |
| MemoryTable.Mem.Splice | UCOSIII/uC-LIB/lib_mem.c:1500-1513 | the pointer updates yield the table with the new segment |
| MemoryTable.Mem.PoolCreate | UCOSIII/uC-LIB/lib_mem.c:1198-1546 | each argument error exactly for its arguments, in the order of the source, then HEAP_NOT_FOUND without a table and INVALID_BLK_ADDR for memory beyond the last address, all of which change nothing; for every other request that does not overrun its pointer array, of whatever sizes in the checked build: INVALID_SEG_OVERLAP if and only if it clashes, and success if and only if nothing clashes and pointer array and blocks truly fit; when the checks fail it reports their error and missing octets and changes nothing; when the loop fails exactly the regions taken so far stay behind; on success pointer array and blocks are new regions, exactly the two cursors moved, the pool is in the table, its array is new and names its blocks, and it is ready for gets and frees; otherwise the pool object is no pool; the table stays doubly linked, ordered, accounted for and its regions apart |
| MemoryTable.Mem.HeapAlloc | UCOSIII/uC-LIB/lib_mem.c:741-821 | the table stays sound; success exactly when the padded size fits the heap, with the aligned block as a new region; the exact shortfall, or overflow, otherwise |
| MemoryTable.Mem.SegGetSizeRem | UCOSIII/uC-LIB/lib_mem.c:900-970 | each error exactly for its arguments; otherwise the remaining size of the segment that the pool object names in the table, in the sense of `SizeRemIsLargest` |
| MemoryOperations.Set | UCOSIII/uC-LIB/lib_mem.c:265-318 | exactly the named octets hold the fill octet afterwards, for every address and size; every word access is aligned and in bounds |
| MemoryOperations.Clr | UCOSIII/uC-LIB/lib_mem.c:222-228 | the same with zero |
| MemoryOperations.Replicate | UCOSIII/uC-LIB/lib_mem.c:287-291 | shifting the octet in four times yields the word of four such octets |
| MemoryOperations.EqualWords | UCOSIII/uC-LIB/lib_mem.c:673-681 | two words are equal exactly when their octets are |
| MemoryOperations.CopiedAt | UCOSIII/uC-LIB/lib_mem.c:375-447 | what each octet holds after copying upwards one octet at a time: the old source octet, or a repetition of the first octets when the source reaches into the destination from below |
| MemoryOperations.CopyMovesIff | UCOSIII/uC-LIB/lib_mem.c:340-357 | the upward copy is an ideal move of every content if and only if the source is not below the destination or ends before it |
| MemoryOperations.Copy | UCOSIII/uC-LIB/lib_mem.c:375-447 | the word-optimised copy equals copying octet by octet, for all addresses and overlaps |
| MemoryOperations.Move | UCOSIII/uC-LIB/lib_mem.c:488-569 | for every source, destination, size, alignment and overlap the destination holds what the source held and nothing else changed |
| MemoryOperations.Cmp | UCOSIII/uC-LIB/lib_mem.c:614-699 | yes if and only if all octets are equal; size 0 is always equal and a null buffer equals nothing else |
| LinearCongruential.Generator.Init | UCOSIII/uC-LIB/lib_math.c:144-147 | the sequence starts at seed 1 |
| LinearCongruential.Generator.SetSeed | UCOSIII/uC-LIB/lib_math.c:172-180 | the sequence starts anew at any seed |
| LinearCongruential.Generator.Rand | UCOSIII/uC-LIB/lib_math.c:212-226 | the n-th call returns the n-th number of the sequence, below 2^31; after Init the first two numbers are 1103527590 and 377401575 |
| LinearCongruential.WrapIsHarmless | UCOSIII/uC-LIB/lib_math.c:269-277 | the two 32-bit wraps do not disturb the recurrence modulo 2^31 |
| LinearCongruential.FirstDraws | UCOSIII/uC-LIB/lib_math.h:165-169 | the numbers themselves: from seed 0 the first is 12345, from seed 1 the first two are 1103527590 and 377401575 |
| LinearCongruential.NextSeed | UCOSIII/uC-LIB/lib_math.c:269-277 | from each seed to the next the first number advances by 1103515245 modulo 2^31 |
| LinearCongruential.ClosedForm | UCOSIII/uC-LIB/lib_math.c:269-277 | the n-th number in closed form, through the geometric sum of the multiplier |
| LinearCongruential.SumDivisible | UCOSIII/uC-LIB/lib_math.c:269-277 | the geometric sum of n terms and n contain the same power of two, for every multiplier that is 1 modulo 4 |
| LinearCongruential.LowBitsPeriod | UCOSIII/uC-LIB/lib_math.c:212-226 | for every k up to 31, the low k bits return to their start after n draws if and only if 2^k divides n |
| LinearCongruential.FullPeriod | UCOSIII/uC-LIB/lib_math.h:167-169 | from any seed in range, two draws agree if and only if 2^31 divides their distance |
| LinearCongruential.VisitsEverything | UCOSIII/uC-LIB/lib_math.h:167-169 | every value in [0, RAND_LCG_PARAM_M] is drawn exactly once in 2^31 draws |
| LinearCongruential.LargeSeed | UCOSIII/uC-LIB/lib_math.c:269-277 | a seed beyond the range joins the cycle of its low 31 bits after one draw |
| Crc16.Crc16Xmodem | HARDWARE/CAN/crc16.h:39-46 | for every buffer and length the result is the remainder of message * x^16 by the generator polynomial |
| Crc16.CrcIsRemainder | HARDWARE/CAN/crc16.h:39-46 | the CRC is the one and only 16-bit remainder of its message |
| Crc16.UpdateByteDivides | HARDWARE/CAN/crc16.h:44 | one turn of the loop keeps the register at the remainder of the octets read so far |
| Crc16.TableEntry | HARDWARE/CAN/crc16.h:4-37 | for every index, the remainder of its polynomial |
| Crc16.TableRemainder | HARDWARE/CAN/crc16.h:4-37 | all 256 table entries are those remainders |
| Crc16.CollisionIffDivisible | HARDWARE/CAN/crc16.h:39-46 | two messages of any lengths collide if and only if the generator divides their difference |
| Crc16.BurstDetected | HARDWARE/CAN/crc16.h:39-46 | messages of equal length that differ only within 16 consecutive bits never collide |
| Crc16.BurstOf17Missed | HARDWARE/CAN/crc16.h:39-46 | the bound is sharp: a burst of 17 bits that collides |
| Crc16.OddErrorDetected | HARDWARE/CAN/crc16.h:39-46 | an error in an odd number of bits always changes the CRC |
| Crc16.FrameCheck | HARDWARE/CAN/crc16.h:39-46 | message and appended CRC have CRC zero, and no other appended word gives zero |
| TwoBitErrors.ReturnsIff | HARDWARE/CAN/crc16.h:39-46 | the generator divides x^k + 1 if and only if 32767 divides k: the period of x is 32767 and no smaller |
| TwoBitErrors.TwoBitErrorMissedIff | HARDWARE/CAN/crc16.h:39-46 | messages of any lengths that differ in exactly two bits collide if and only if 32767 divides the distance of the bits |
| TwoBitErrors.TwoBitErrorDetected | HARDWARE/CAN/crc16.h:39-46 | so an error in two bits always changes the CRC of a message of up to 4095 octets |
| Timestamps.LostNothing | UCOSIII/uC-CPU/cpu_core.c:578-589 | no time is lost if and only if every read follows the last within one turn of the timer |
| Timestamps.DeltaIsGap | UCOSIII/uC-CPU/cpu_core.c:458-459 | the wrapping difference of two timer values is the gap without its full turns |
| Timestamps.Timestamp.constructor | UCOSIII/uC-CPU/cpu_core.c:2101-2137 | nothing is counted at the first reading |
| Timestamps.Timestamp.Get | UCOSIII/uC-CPU/cpu_core.c:443-467 | the timestamp is the true elapsed time less exactly the full timer turns within each gap, modulo its word; a wide timer is returned directly |
| Timestamps.Update | UCOSIII/uC-CPU/cpu_core.c:578-589 | an update is a read of each timestamp that is wider than the timer, and leaves the others as they were |
| Timestamps.TimestampExactIff | UCOSIII/uC-CPU/cpu_core.c:524-548 | after any reads the timestamp is the true elapsed time modulo its word if and only if the time lost is a multiple of that word |
| Timestamps.TimelyExact | UCOSIII/uC-CPU/cpu_core.c:524-548 | with timely reads exactly the elapsed ticks are counted |
| Timestamps.WideTimerExact | UCOSIII/uC-CPU/cpu_core.c:453-454 | a timer at least as wide as the timestamp gives the true tick |
| InterruptMeasure.BetweenIsTime | UCOSIII/uC-CPU/cpu_core.c:1015-1016 | the measured difference is the true duration less its full timer turns |
| InterruptMeasure.MaxNext | UCOSIII/uC-CPU/cpu_core.c:1013-1023 | ending an outermost section extends the maximum over outermost sections by its duration, and by nothing else |
| InterruptMeasure.MaxKept | UCOSIII/uC-CPU/cpu_core.c:1011-1012 | no other event changes the maxima: inner sections are not timed |
| InterruptMeasure.MaxCurBelowMax | UCOSIII/uC-CPU/cpu_core.c:1018-1023 | the resettable maximum never exceeds the other |
| InterruptMeasure.MaxCalc | UCOSIII/uC-CPU/cpu_core.c:2313-2326 | the reported time is the saturating difference to the overhead |
| InterruptMeasure.Measure.Start | UCOSIII/uC-CPU/cpu_core.c:822-829 | the variables keep meaning the trace: nesting depth, start of the open outermost section, both maxima |
| InterruptMeasure.Measure.Stop | UCOSIII/uC-CPU/cpu_core.c:1006-1025 | likewise; only the last leave updates the maxima |
| InterruptMeasure.Measure.MaxCurGet | UCOSIII/uC-CPU/cpu_core.c:743-756 | the variable is the longest of the outermost sections in the trace that ended since the last reset and at most the other maximum; no such section exceeded the reported time and the overhead together, and if the time is positive one attained exactly that |
| InterruptMeasure.Measure.MaxGet | UCOSIII/uC-CPU/cpu_core.c:785-798 | likewise for all outermost sections since the initialization |
| InterruptMeasure.Measure.MaxCurReset | UCOSIII/uC-CPU/cpu_core.c:702-714 | reports the maximum, corrected in the same sense, and restarts it; the other is kept |
| InterruptMeasure.Measure.Init | UCOSIII/uC-CPU/cpu_core.c:2180-2210 | a fresh history; the overhead is a single calibrating measurement itself, and of several it lies between any bounds of theirs unless the total overflows |
| InterruptMeasure.OverheadRounds | UCOSIII/uC-CPU/cpu_core.c:2205-2206 | the overhead is the average rounded to nearest, unless the total overflows |
| InterruptMeasure.OverheadInRange | UCOSIII/uC-CPU/cpu_core.c:2196-2206 | the rounded average of the readings lies between the least and the greatest, and of one reading it is that reading |
| InterruptMeasure.OneReading | UCOSIII/uC-CPU/cpu_core.c:2196-2204 | when one reading changes, the total changes by exactly as much |
| ZeroCounting.TblIsLeadZeros | UCOSIII/uC-CPU/cpu_core.c:95-113 | all 256 table entries |
| ZeroCounting.LeadZerosUnique | UCOSIII/uC-CPU/cpu_core.c:1126-1149 | a value has one leading-zero count |
| ZeroCounting.CntLeadZerosExact | UCOSIII/uC-CPU/cpu_core.c:1417-1489 | for every value of 8, 16, 32 and 64 bits the table tree returns the leading-zero count |
| ZeroCounting.NativeCountAgrees | UCOSIII/uC-CPU/cpu_core.c:1199-1202 | the branch that adjusts a native 32-bit count agrees with the table branch |
| ZeroCounting.LowestBit | UCOSIII/uC-CPU/cpu_core.c:2028 | val & (~val + 1) is the largest power of two that divides val |
| ZeroCounting.CntTrailZerosExact | UCOSIII/uC-CPU/cpu_core.c:2008-2036 | the trailing count of a non-zero value is the exponent of that power; of zero the word size |
| ZeroCounting.DividesIffTrailing | UCOSIII/uC-CPU/cpu_core.c:1603-1622 | 2^n divides a value if and only if n is at most its trailing count |
| ZeroCounting.TrailingAgrees | UCOSIII/uC-CPU/cpu_core.c:1696-1724 | the word size does not matter to the trailing count of a non-zero value |
| OctetOrder.ReversedValue | UCOSIII/uC-LIB/lib_mem.h:900-911 | reversed octets have the same value in the opposite order, for every length |
| OctetOrder.CopyGetIntU | UCOSIII/uC-LIB/lib_mem.h:869-923 | on hosts of both orders, the copy of any length preserves the value: in the order of the source before, in the order of the host after; nothing else changes |
| OctetOrder.ConvertedTwice | UCOSIII/uC-LIB/lib_mem.h:1067-1069 | copying there and back restores the octets |
| OctetOrder.Int32uRoundTrip | UCOSIII/uC-LIB/lib_mem.h:617-632 | the 32-bit get macros invert the set macros |
| OctetOrder.GetInt32uIsValue | UCOSIII/uC-LIB/lib_mem.h:521-536 | the 32-bit get macros compute the values that the any-size copies preserve |
| OctetOrder.OctetsInOrder | UCOSIII/uC-LIB/lib_mem.h:521-536 | the octets 12, 34, 56, 78 (hexadecimal) are 12345678 in one order and 78563412 in the other |

## Left out

- MemoryTable.Mem.PoolCreate: asks that the pointer array is not overrun (`Overruns`; `OverrunsIff` is the exact condition), since the source then writes to memory that it has not allocated; the array of the model always has an entry for every block. It also asks for memory that does not end exactly at 2^32, and for a pool object that is not in the table already, as the source demands.
- MemoryTable.Mem.PoolCreate: in the unchecked build, asks for sizes that fit 32 bits (`Sized`) and for memory in range, as that build takes for granted.
- MemoryTable.Mem.PoolCreate: the branch for a failed allocation of the pointer array is not written out, because `PlanLeavesRoom` shows that the array fits once the checks have passed.
- MemoryTable.Mem.HeapAlloc: the second failure branch (UCOSIII/uC-LIB/lib_mem.c:807-813) is not written out, because the allocation cannot fail after the size check.
- MemoryPool.UncheckedRunConserves: asks that only held blocks are freed, since anything else breaks the pool unless it is full (`UncheckedFreeConserves`).
- OctetOrder.CopyGetIntU: source and destination must not overlap, where the macro's own note leaves the result undefined.
- Null checks of return-code and pool pointers, and the software exceptions behind them: single branches.
- Memory contents of pools and heap blocks: the manager itself never reads or writes them.
- Mem_HeapGetSizeRem and Mem_PoolBlkGetNbrAvail: they only forward to, or read, what is modelled.
- The aliasing of a pool's pointer array with other memory in C: the array is separate storage here, at a recorded region.
- Concurrency inside a call, the assembly ports, timer frequency, CPU names.
- String, ASCII, hook, driver and network-interface files: interfaces or functions outside these cores.
- The 8- and 16-bit value macros and the byte-swap macros: smaller instances of the 32-bit forms.
