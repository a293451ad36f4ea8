# Verified models of the microbenchmark algorithms

The probes of this repository report latencies and bandwidths. Each reported number rests on a small
algorithm: a pointer ring must be one cycle through all of its nodes, a chase must take the steps it
is divided by, a grid of GPU threads must touch every element once, a start gate must not let a worker
begin before the clock was read, a report must be readable back. This project models those algorithms
in Dafny and proves what the numbers rely on, for all sizes, inputs, runs and interleavings.

`dafny verify dfyconfig.toml` checks everything.

| file | models |
|---|---|
| `Wrappers.dfy`, `NumberTheory.dfy`, `Bits.dfy`, `Permutations.dfy`, `RealSums.dfy` | shared: optional values, division, gcd, powers of two, 64-bit wrap-around, bitwise operators bit by bit, permutations and the sums they keep |
| `RotationRing.dfy` | chasing a table: single cycles, first return, balanced visits |
| `MemChase.dfy` | GPU stride search, ring and chase |
| `PointerRings.dfy` | CPU rings, unrolled and multi-stream chases |
| `GridStride.dfy`, `HbmProbe.dfy` | write, copy and read kernels under every interleaving; grid sizing; the probe's launch sequence |
| `StartGate.dfy` | the thread-scaling protocol |
| `Lcg.dfy` | the random byte filler |
| `NextPow2.dfy`, `RandomMem.dfy` | rounding up to a power of two, index table, random load, store and read-modify-write |
| `FrontendKernels.dfy`, `DependencyChains.dfy` | indirect calls, recursion, integer dependency chains |
| `Decimal.dfy`, `Json.dfy`, `JsonReader.dfy`, `JsonLayout.dfy`, `JsonBuilder.dfy` | JSON printing, a reference reader after sections 2 to 7 of RFC 8259, the layout of the printed lines, in-place building |
| `CsvLists.dfy`, `CliOptions.dfy` | list and option parsing |
| `SampleStats.dfy` | sample statistics over exact reals |

## What the proofs found

- `apple/README.md:73-74` calls the pointer chase a pseudo-random permutation. Every CPU ring is the
  constant-stride walk `p -> p + multiplier` (`PointerRings.FillRing`), and the rings with multiplier
  131071 and at most 2^17 nodes, which include the 16384-node rings of the MLP probe, simply descend:
  `p -> p - 1` (`PointerRings.DescendingRing`). The model follows the code.
- The GPU ring is a single cycle exactly up to 2863311531 elements (`MemChase.RingIsOneCycle`). Beyond
  that `i + stride` wraps and two elements link to element 0 (`MemChase.WrapCollides`):
  `--mem-sizes 12884901888`, 12 GiB, asks for such a ring (`MemChase.FailingRing`).
- The copy of the GPU table to the device stays inside the table exactly for multiples of four below
  16 GiB (`MemChase.CopyFits`). `--mem-sizes 4097` reads one byte past a table of 1024 elements; from
  16 GiB on the element count is truncated, so 16 GiB copies from an empty table and 20 GiB copies
  16 GiB more than there are (`MemChase.CopyOverruns`). No kernel is launched before that copy, so the
  kernel itself could only leave the table for zero bytes, which the parser refuses
  (`MemChase.RunSize`).
- The HBM grid is non-empty exactly when the block count survives its conversion to int
  (`HbmProbe.GridNonEmpty`); `--bytes 8796093022208`, 8 TiB, makes it empty (`HbmProbe.EmptyGrid`).
- The ring builder of `cpu_probes.c` checks nothing: it links every node exactly when the node count is
  a power of two, and otherwise leaves a null pointer (`PointerRings.MakePointerRingUnchecked`).
  `fill_permutation` yields a permutation exactly for powers of two up to 2^32
  (`RandomMem.TableIsPermutation`); up to 8192 entries it is simply descending
  (`RandomMem.SmallTablesDescend`). `next_pow2_u64` wraps to zero exactly beyond 2^63
  (`NextPow2.NextPow2U64`). No caller passes a failing count to these three: every size in the tables of
  `cpu_probes.c` and `advanced_cpu_probes.c` is a fixed power of two.
- `mlp_chase` performs the reported number of loads exactly when 4 divides it (`PointerRings.MlpOps`).
- The umulh chain is at zero exactly from its 2070th block on; the probe runs 50000 blocks in smoke mode
  and 400000 by default, so almost all of them multiply zero (`DependencyChains.DepUmulh`).
  The divide chain reaches its fixed point 16 within 12 blocks (`DependencyChains.DepUdiv`).
- The thread results cancel in the sink exactly for even thread counts (`StartGate.SinkParity`).

## Conventions

Fixed-width integers are unbounded numbers reduced explicitly (`W32`, `W64`). Pointers into a ring are
byte addresses `base + node * stride`. Strings are sequences of characters that stand for bytes.
Floating-point sums are exact reals. The hardware counter is a ghost clock seen modulo 2^64. Library
calls without source here (`std::gcd`, `std::from_chars`, `std::map`, `qsort`) are functions with the
behaviour their standards give them.

## Model

| member | source | states |
|---|---|---|
| `RotationRing.FollowRotation` | nvidia/src/mem_chase.cu:16-27 | k dependent loads over a constant-stride ring move k strides around it |
| `RotationRing.FirstReturn` | nvidia/src/mem_chase.cu:21-23 | a chase is back at its start after exactly the multiples of the ring length |
| `RotationRing.RotationSingleCycle` | nvidia/src/mem_chase.cu:44-47 | a constant-stride ring is one cycle through all nodes if and only if the stride is coprime to its length |
| `RotationRing.SingleCycleIsPerm` | nvidia/src/mem_chase.cu:44-47 | in a single cycle no two nodes link to one node |
| `RotationRing.VisitsCount` | apple/src/deep_cpu_probes.c:714-734 | visits are the loads of the chase that read the node |
| `RotationRing.BalancedVisits` | apple/src/deep_cpu_probes.c:714-734 | any chase reads every node floor(steps/n) or ceil(steps/n) times |
| `MemChase.CoprimeStride` | nvidia/src/mem_chase.cu:29-38 | the search terminates with the largest number below half the element count that is coprime to it, and with 1 up to three elements |
| `MemChase.GcdOfDouble` | nvidia/src/mem_chase.cu:34-36 | testing a candidate c against n is testing it against n - 2c |
| `MemChase.EvenStride` | nvidia/src/mem_chase.cu:29-38 | exact stride on even sizes: 1 for 2, n/2 - 1 for multiples of four, n/2 - 2 for the others |
| `MemChase.OddCandidate` | nvidia/src/mem_chase.cu:29-38 | on odd sizes the candidate n/2 - 1 - j is tested against 2j + 3 |
| `MemChase.BuildRing` | nvidia/src/mem_chase.cu:44-47 | the in-place loop fills the whole table with the 32-bit wrapped successors |
| `MemChase.RingIsOneCycle` | nvidia/src/mem_chase.cu:41-47 | the built ring is a single cycle if and only if it has at most 2863311531 elements |
| `MemChase.WrapCollides` | nvidia/src/mem_chase.cu:44-47 | when index plus stride can wrap, two different elements link to element 0 |
| `MemChase.SizesThatFit` | nvidia/src/mem_chase.cu:29-47 | for every size below 2^32, whatever the search finds, index plus stride never wraps if and only if there are at most 2863311531 elements |
| `MemChase.FailingRing` | nvidia/src/mem_chase.cu:41-47 | a working set of 12 GiB gets a ring that is not a single cycle |
| `MemChase.ElementCount` | nvidia/src/mem_chase.cu:41 | the element count is the number of words asked for if and only if they are less than 16 GiB; at 16 GiB it is zero |
| `MemChase.CopyFits` | nvidia/src/mem_chase.cu:41-55 | the device copy stays inside the table, and is the whole table, if and only if the byte count is a multiple of four below 16 GiB |
| `MemChase.CopyOverruns` | nvidia/src/mem_chase.cu:41-55 | the tables for 4097 bytes, 16 GiB and 20 GiB are shorter than the copy |
| `MemChase.PointerChaseKernel` | nvidia/src/mem_chase.cu:16-27 | the sink is the node reached after exactly `iterations` loads from node 0 |
| `MemChase.RunSize` | nvidia/src/mem_chase.cu:40-83 | for every byte count: the copy reads past the table if and only if the count is not a multiple of four or is at least 16 GiB; the kernel leaves the table if and only if the count is zero and it iterates; otherwise the sink is the node that many loads from node 0, which is (iterations * stride) mod elements up to 2863311531 elements |
| `MemChase.MeasuredChase` | nvidia/src/mem_chase.cu:16-47 | position, first return and balanced coverage of the measured chase, up to 2863311531 elements |
| `PointerRings.SlotsOfStep` | apple/src/deep_cpu_probes.c:748-749 | the masked wrapping products are consecutive multiples of the multiplier around the ring |
| `PointerRings.EverySlotWritten` | apple/src/deep_cpu_probes.c:747-752 | every slot is written in exactly one iteration, with its successor |
| `PointerRings.RingIsOneCycle` | apple/src/advanced_cpu_probes.c:679-696 | for every power of two and odd multiplier the ring is a single cycle |
| `PointerRings.DescendingRing` | apple/src/advanced_cpu_probes.c:689-694 | with multiplier 131071 and at most 2^17 nodes each node links to the one below it |
| `PointerRings.FillRing` | apple/src/deep_cpu_probes.c:746-752 | the loop stays in the buffer; on powers of two it builds the constant-stride ring, on other counts it leaves a null slot |
| `PointerRings.PointerRing.SlotsDisjoint` | apple/src/deep_cpu_probes.c:750-751 | node slots neither overlap nor leave the buffer |
| `PointerRings.MakePointerRing` | apple/src/deep_cpu_probes.c:736-754 | a ring is returned exactly for powers of two, fully linked |
| `PointerRings.MakePointerRingUnchecked` | apple/src/cpu_probes.c:404-420 | all slots are linked if and only if the node count is a power of two |
| `PointerRings.PointerRing.PointerChaseSteps` | apple/src/deep_cpu_probes.c:714-734 | eight-way blocks and tail perform exactly `steps` dependent loads |
| `PointerRings.ChaseIsBalanced` | apple/src/deep_cpu_probes.c:714-754 | every chase reads every node floor or ceil of steps per node times |
| `PointerRings.SweepCoverage` | apple/src/deep_cpu_probes.c:1014-1049 | the step sizing of the cache and TLB sweeps makes every node be read at least 16 times, and exceeds its default only to sixteen steps per node |
| `Bits.XorBit` | apple/src/deep_cpu_probes.c:819 | a bit of an exclusive or is the parity of the two bits |
| `Bits.AndBit` | apple/src/deep_cpu_probes.c:748-749 | a bit of an and is set if and only if it is in both words |
| `Bits.OrBit` | apple/src/advanced_cpu_probes.c:187-189 | a bit of an or is set if and only if it is in one of the words |
| `PointerRings.XorIsParity` | apple/src/deep_cpu_probes.c:819 | every bit of the combined pointers is the parity of the pointers that have it |
| `PointerRings.MlpChase` | apple/src/deep_cpu_probes.c:789-820 | with 1, 2 or 4 streams every ring is advanced 4 * (steps / 4) / streams times, and every bit of the result is the parity of the fronts that have it |
| `PointerRings.MlpOps` | apple/src/deep_cpu_probes.c:850-854 | the reported operations are the loads performed if and only if 4 divides steps |
| `PointerRings.ChaseMlp` | apple/src/advanced_cpu_probes.c:703-741 | with 1, 2, 4 or 8 streams every ring is advanced `iters` times, and every bit of the result is the parity of the fronts that have it |
| `GridStride.StepFootprint` | nvidia/src/hbm_bandwidth.cu:17-43 | a thread step changes only its write set and depends on memory only through its read set |
| `GridStride.RunInv` | nvidia/src/hbm_bandwidth.cu:17-43 | in every reachable state each cell holds its final or initial value according to its owner's progress, and each running sum is exact |
| `GridStride.RaceFree` | nvidia/src/hbm_bandwidth.cu:17-43 | two threads of a launch never touch one cell with one of them writing, at any two moments of any run |
| `GridStride.RunLength` | nvidia/src/hbm_bandwidth.cu:17-43 | every complete run takes exactly elements + threads steps, and no run is stuck before |
| `GridStride.Complete` | nvidia/src/hbm_bandwidth.cu:17-43 | every partial run can be completed |
| `HbmProbe.Elements` | nvidia/src/hbm_bandwidth.cu:87-89 | as many whole 16-byte elements as the request holds, at least one |
| `GridStride.PartialsTotal` | nvidia/src/hbm_bandwidth.cu:34-43 | the threads' index classes partition the elements: the partial sums add up to the total |
| `GridStride.ClassSum` | nvidia/src/hbm_bandwidth.cu:34-43 | a thread adds up exactly the entries t, t + stride, t + 2 * stride and so on |
| `GridStride.TotalsAreComponents` | nvidia/src/hbm_bandwidth.cu:39-40 | the total over the elements is the sum of all their components |
| `GridStride.LaunchResult` | nvidia/src/hbm_bandwidth.cu:17-43 | the memory after a complete launch of each kernel, whatever the interleaving |
| `HbmProbe.GridNonEmpty` | nvidia/src/hbm_bandwidth.cu:91-93 | the grid has a block if and only if the needed count is positive as an int |
| `HbmProbe.EmptyGrid` | nvidia/src/hbm_bandwidth.cu:87-93 | a request of 8 TiB gets an empty grid |
| `HbmProbe.GridSize` | nvidia/src/hbm_bandwidth.cu:87-93 | at most 8192 blocks; below the cap a thread per element with less than a block to spare |
| `HbmProbe.TidIsBijective` | nvidia/src/hbm_bandwidth.cu:18-19 | every thread number belongs to exactly one block and lane |
| `HbmProbe.LaunchEffect` | nvidia/src/hbm_bandwidth.cu:102-104 | what one launch with the probe's buffer arguments does to device memory |
| `HbmProbe.LaunchCompletes` | nvidia/src/hbm_bandwidth.cu:102-104 | every launch over buffers of one size can run to its end |
| `HbmProbe.WarmedLaunch` | nvidia/src/hbm_bandwidth.cu:45-64 | the second, measured launch of a kernel leaves memory as the warm-up did |
| `HbmProbe.ProbeResult` | nvidia/src/hbm_bandwidth.cu:87-104 | whenever the grid is non-empty, after write, copy and read both buffers hold (1,2,3,4) everywhere and the partials total 10 per element |
| `HbmProbe.Device.WriteKernel` | nvidia/src/hbm_bandwidth.cu:17-24 | one thread stores the value in exactly the elements of its index class |
| `HbmProbe.Device.CopyKernel` | nvidia/src/hbm_bandwidth.cu:26-32 | one thread copies exactly the elements of its index class |
| `HbmProbe.Device.ReadKernel` | nvidia/src/hbm_bandwidth.cu:34-43 | one thread stores the exact sum of its index class in its own partial |
| `HbmProbe.Device.LaunchWrite` | nvidia/src/hbm_bandwidth.cu:17-24 | all threads of a launch in turn fill the whole buffer, as under every interleaving |
| `HbmProbe.Device.LaunchCopy` | nvidia/src/hbm_bandwidth.cu:26-32 | all threads in turn copy the whole buffer |
| `HbmProbe.Device.LaunchRead` | nvidia/src/hbm_bandwidth.cu:34-43 | all threads in turn store the partial sums of the whole buffer |
| `StartGate.RunInv` | apple/src/deep_cpu_probes.c:1118-1166 | the protocol invariant holds in every state of every run, for any number of threads |
| `StartGate.GateHolds` | apple/src/deep_cpu_probes.c:1118-1157 | no worker is in its kernel before the start tick was read and the flag released; none acts after the tasks are freed |
| `StartGate.ElapsedCovers` | apple/src/deep_cpu_probes.c:1156-1166 | the elapsed interval covers every worker's whole work interval and is exact while shorter than the counter period |
| `StartGate.ResultNeverZero` | apple/src/deep_cpu_probes.c:440-455 | a thread result is 4 modulo 8 after any number of blocks, so never zero |
| `StartGate.SinkParity` | apple/src/deep_cpu_probes.c:1158-1165 | every result is 36 + 8 * blocks modulo 2^64 and the xor into the sink cancels if and only if the thread count is even |
| `StartGate.NeverStuck` | apple/src/advanced_cpu_probes.c:801-874 | before the end some step other than spinning is always possible |
| `StartGate.ProductiveSteps` | apple/src/advanced_cpu_probes.c:801-874 | under every schedule the run ends after exactly threads * (blocks + 4) + 5 productive steps |
| `StartGate.RegsSum` | apple/src/deep_cpu_probes.c:440-455 | the eight wrapped accumulators sum to 36 + 8 * blocks modulo 2^64 |
| `Lcg.GeometricValuation` | apple/src/advanced_cpu_probes.c:196 | for a multiplier 1 modulo 4 the geometric sum of n terms has the same power of two in it as n |
| `Lcg.FullPeriod` | apple/src/advanced_cpu_probes.c:193-199 | states agree modulo 2^k if and only if 2^k divides the number of steps between them, for every k |
| `Lcg.HalfPeriod` | apple/src/advanced_cpu_probes.c:193-199 | half a period later the residue differs by exactly its top bit |
| `Lcg.StatesRepeat` | apple/src/advanced_cpu_probes.c:193-199 | 32-bit states repeat with period exactly 2^32 from every seed |
| `Lcg.FillRandomU8` | apple/src/advanced_cpu_probes.c:193-199 | byte i of the buffer is the top byte of state i + 1 |
| `Lcg.ByteClosedForm` | apple/src/advanced_cpu_probes.c:193-199 | byte i is the top byte of p * seed + 1013904223 * (p - 1) / 1664524 modulo 2^32, with p the power i + 1 of 1664525 |
| `Lcg.LowBitFlips` | apple/src/advanced_cpu_probes.c:193-199 | the low bit of the generated bytes is inverted 2^24 positions later |
| `Lcg.BytePeriod` | apple/src/advanced_cpu_probes.c:193-199 | the bytes repeat after p positions if and only if 2^32 divides p |
| `Lcg.OccurrencesCount` | apple/src/advanced_cpu_probes.c:193-199 | occurrences are the positions whose byte has the value |
| `Lcg.BytesBalanced` | apple/src/advanced_cpu_probes.c:193-199 | any 2^32 consecutive bytes contain every byte value exactly 2^24 times |
| `NextPow2.SmearMore` | apple/src/advanced_cpu_probes.c:187-189 | or-ing a value with itself shifted by its leading ones extends them |
| `NextPow2.NextPow2U64` | apple/src/advanced_cpu_probes.c:182-191 | the least power of two at least the argument up to 2^63, and zero exactly beyond |
| `RandomMem.FillPermutation` | apple/src/advanced_cpu_probes.c:201-210 | the loop stores the masked, truncated products in every entry |
| `RandomMem.TableIsPermutation` | apple/src/advanced_cpu_probes.c:201-210 | the table is a permutation if and only if the count is a power of two up to 2^32 |
| `RandomMem.TableSteps` | apple/src/advanced_cpu_probes.c:201-210 | the table starts at 0 and moves by 8191 around the buffer, by 65537 beyond 65536 entries |
| `RandomMem.SmallTablesDescend` | apple/src/advanced_cpu_probes.c:201-210 | tables of up to 8192 entries descend from index 1 on |
| `RandomMem.BufferCount` | apple/src/advanced_cpu_probes.c:477-485 | the buffer count is a power of two, at least 1024, least above the request |
| `RandomMem.RandomBuffers.constructor` | apple/src/advanced_cpu_probes.c:477-496 | buffer contents, table and mask; the context is usable exactly up to 2^32 words |
| `RandomMem.RandomBuffers.LapPosition` | apple/src/advanced_cpu_probes.c:510 | masking the iteration number gives its position in the lap |
| `RandomMem.RandomBuffers.RandomLoad` | apple/src/advanced_cpu_probes.c:506-513 | the wrapped sum is the exact sum of the words read, modulo 2^64 |
| `RandomMem.LoadOverLaps` | apple/src/advanced_cpu_probes.c:506-513 | over r laps that sum is r times the plain sum of the buffer |
| `RandomMem.RandomBuffers.RandomStore` | apple/src/advanced_cpu_probes.c:515-523 | every cell holds what its last visit stored |
| `RandomMem.RandomBuffers.RandomRmw` | apple/src/advanced_cpu_probes.c:525-535 | every cell has accumulated its visits and the result is the sum of the words written |
| `RandomMem.RmwOverLaps` | apple/src/advanced_cpu_probes.c:525-535 | closed form, modulo 2^64, of the value returned after r laps, from the number of cells and the plain sum of the buffer |
| `RandomMem.OverLaps` | apple/src/advanced_cpu_probes.c:515-535 | closed forms after r laps: the last lap's store, and the added iteration numbers |
| `FrontendKernels.EachTargetOnce` | apple/src/advanced_cpu_probes.c:445-447 | every `count` consecutive calls hit every target exactly once |
| `FrontendKernels.IndirectFanout` | apple/src/advanced_cpu_probes.c:442-449 | the result is one plus the exact cost of the calls, modulo 2^64 |
| `FrontendKernels.FanoutOverLaps` | apple/src/advanced_cpu_probes.c:442-449 | over r laps the calls add r * count * (count + 1) / 2 |
| `FrontendKernels.RasResult` | apple/src/advanced_cpu_probes.c:303-310 | a recursion of the given depth makes depth + 1 invocations and returns x + 2 * depth + 1 modulo 2^64 |
| `FrontendKernels.RasDepth` | apple/src/advanced_cpu_probes.c:312-341 | closed form of the accumulated recursion results; the invocations are the reported iters * (depth + 1) operations |
| `DependencyChains.DepMul` | apple/src/deep_cpu_probes.c:379-395 | the register holds 3 * c^(8 * blocks) modulo 2^64, always odd |
| `DependencyChains.UmulhIsHighHalf` | apple/src/deep_cpu_probes.c:416 | one instruction leaves the upper 64 bits of the product with the constant |
| `DependencyChains.DepUmulh` | apple/src/deep_cpu_probes.c:412-424 | the register is zero if and only if at least 2070 blocks ran |
| `DependencyChains.HighChainFalls` | apple/src/deep_cpu_probes.c:412-424 | every instruction decreases the register until it sticks at zero |
| `DependencyChains.DepUdiv` | apple/src/deep_cpu_probes.c:426-438 | closed form of the register after any number of blocks; it is at the fixed point 16 if and only if at least 12 ran |
| `DependencyChains.LogicBlockSticks` | apple/src/deep_cpu_probes.c:349-356 | one block leaves the mask, whatever the register held |
| `DependencyChains.DepLogic` | apple/src/deep_cpu_probes.c:345-361 | after any block the register is the mask |
| `DependencyChains.DepShift` | apple/src/deep_cpu_probes.c:363-377 | the shift chain never changes its value |
| `Json.EscapeTable` | nvidia/src/json.cpp:113-141 | the escape of every byte |
| `Json.EscapedByte` | nvidia/src/json.cpp:110-145 | a string of one byte is the escape of that byte |
| `Json.EscapedConcat` | nvidia/src/json.cpp:110-145 | strings are escaped byte by byte |
| `Json.Escape` | nvidia/src/json.cpp:110-145 | the per-byte loop produces the escaped text |
| `Json.ScalarText` | nvidia/src/json.cpp:54-82 | the words, quotes and empty brackets |
| `Json.DumpImpl` | nvidia/src/json.cpp:50-108 | the stream-building loops produce the text of the value |
| `Json.Dump` | nvidia/src/json.cpp:48 | the text of the value from depth zero, the one that reading gives back |
| `JsonReader.StringRead` | nvidia/src/json.cpp:110-145 | reading an escaped string gives the string back and stops at the closing quote |
| `JsonReader.NumberRead` | nvidia/src/json.cpp:60-65 | reading a printed integer gives it back |
| `JsonReader.ReadText` | nvidia/src/json.cpp:50-108 | at every indent and depth, reading a printed value gives its meaning and stops where the print ended |
| `JsonReader.RoundTrip` | nvidia/src/json.cpp:48-108 | dump then read is the identity on meanings, with or without the final newline of the report file |
| `JsonReader.PrintIsFaithful` | nvidia/src/json.cpp:48-108 | two values print alike if and only if they mean the same document |
| `JsonLayout.PrintedLayout` | nvidia/src/json.cpp:48-108 | outside strings the printed text has newlines exactly after opening brackets, after commas and before closing brackets, none in empty ones; every line is indented for its open brackets; there is no other space but one after each colon; all brackets and strings are closed |
| `JsonBuilder.LessIsBytewise` | nvidia/src/json.hpp:12 | keys are ordered by their first different byte, a prefix first |
| `JsonBuilder.OrderedIsAscending` | nvidia/src/json.hpp:12 | members are ordered if and only if any two neighbouring keys first differ at a smaller byte |
| `JsonBuilder.PutLaws` | nvidia/src/json.cpp:22-27 | the later assignment to a key wins; on ordered objects lookups and assignments keep the order and different keys commute |
| `JsonBuilder.GetPut` | nvidia/src/json.cpp:22-39 | an assignment is seen by lookups of its key and no others |
| `JsonBuilder.Canonical` | nvidia/src/json.hpp:12 | ordered member lists with the same entries are equal |
| `JsonBuilder.JsonCell.Index` | nvidia/src/json.cpp:22-27 | non-objects become objects, a missing key becomes null, a present one is kept; neighbouring keys still first differ at a smaller byte |
| `JsonBuilder.JsonCell.Assign` | nvidia/src/json.cpp:22-27 | assignment through the reference sets exactly that key; neighbouring keys still first differ at a smaller byte |
| `JsonBuilder.JsonCell.PushBack` | nvidia/src/json.cpp:41-46 | non-arrays become arrays and the value is appended |
| `Decimal.ValueAppend` | nvidia/src/json.cpp:60-65 | decimal place value of digit strings |
| `CsvLists.ParseIntLanguage` | nvidia/src/cli.cpp:9-18 | parse_int accepts exactly optionally signed digit strings in int range, with their value |
| `CsvLists.IntegerTexts` | nvidia/src/cli.cpp:9-18 | integer texts are digits with at most a minus sign in front |
| `CsvLists.ParseU64Language` | nvidia/src/cli.cpp:20-29 | parse_u64 accepts exactly the digit strings of 1 to 2^64 - 1, with their value |
| `CsvLists.ParseCsv` | nvidia/src/cli.cpp:71-88 | the comma loop terminates and gives all token values or the first token's error |
| `CsvLists.ParseGpuCsv` | nvidia/src/cli.cpp:48-69 | the same for GPU ids |
| `CsvLists.ParseU64Csv` | nvidia/src/cli.cpp:71-88 | the same for positive sizes |
| `CsvLists.JoinSplit` | nvidia/src/cli.cpp:51-54 | the tokens joined by commas are the text |
| `CsvLists.SplitJoin` | nvidia/src/cli.cpp:51-54 | comma-free tokens are recovered from their joined text |
| `CsvLists.ListLanguage` | nvidia/src/cli.cpp:71-88 | a list is accepted if and only if every token is, one value per token in order |
| `CsvLists.CsvLanguage` | nvidia/src/cli.cpp:48-88 | a text gives a list of values if and only if it is a non-empty comma-joined list of comma-free tokens with these values |
| `CsvLists.TokenLanguage` | nvidia/src/cli.cpp:55-62 | the exact token languages of the two lists, "-0" included for GPU ids |
| `CsvLists.ListErrors` | nvidia/src/cli.cpp:48-88 | a list is refused with the error of its first bad token |
| `CsvLists.TokenErrors` | nvidia/src/cli.cpp:55-62 | which tokens are refused, and with which error |
| `CsvLists.ListRoundTrip` | nvidia/src/cli.cpp:48-88 | parsing inverts comma-joined rendering of every non-empty valid list |
| `CliOptions.RequireValue` | nvidia/src/cli.cpp:31-37 | the next argument and its index, or the missing-value error |
| `CliOptions.ParseOptions` | nvidia/src/cli.cpp:90-133 | the argument loop and the final checks compute the parse of the arguments |
| `CliOptions.Defaults` | nvidia/src/cli.hpp:7-19 | the options without arguments |
| `CliOptions.TextFlags` | nvidia/src/cli.cpp:94-97 | what probe, mode, output and the help words do |
| `CliOptions.IntFlags` | nvidia/src/cli.cpp:98-112 | which values gpu and iterations take, and the errors of the others |
| `CliOptions.CountFlags` | nvidia/src/cli.cpp:103-116 | which values bytes and the two lists take |
| `CliOptions.OtherWords` | nvidia/src/cli.cpp:31-37 | any other word is refused, and so is a flag without a value |
| `CliOptions.FinalChecks` | nvidia/src/cli.cpp:123-131 | the probes and modes accepted, and the order of the final checks |
| `CliOptions.ParsedIsValid` | nvidia/src/cli.cpp:90-133 | every successful parse satisfies the validity invariant |
| `CliOptions.ArgsAreGroups` | nvidia/src/cli.cpp:92-121 | accepted arguments are a list of help words and flag-value pairs |
| `CliOptions.LastValueIsLast` | nvidia/src/cli.cpp:92-121 | the recorded value of a flag is the one of its last occurrence |
| `CliOptions.LastOccurrenceWins` | nvidia/src/cli.cpp:90-133 | a parse succeeds if and only if every value is acceptable and the result valid, and depends only on the last value of each flag |
| `CliOptions.GroupsCommute` | nvidia/src/cli.cpp:92-121 | neighbouring groups, help words included, can be exchanged unless both set the same flag |
| `CliOptions.OptionsRoundTrip` | nvidia/src/cli.cpp:90-133 | rendering a valid options value as flags and parsing gives it back |
| `SampleStats.SortedIsUnique` | apple/src/probe_helpers.c:85-86 | every correct sort leaves the same buffer |
| `SampleStats.ProbeStatsFrom` | apple/src/probe_helpers.c:75-110 | the copy, sort and accumulation loops compute the statistics, zeros for no samples |
| `SampleStats.MeanAndVariance` | apple/src/probe_helpers.c:88-103 | over n integer samples n * mean is their sum, and n^2 * variance is n * sum(x^2) - sum(x)^2 |
| `SampleStats.OrderIrrelevant` | apple/src/probe_helpers.c:75-110 | all statistics are invariant under permuting the samples |
| `SampleStats.Extremes` | apple/src/probe_helpers.c:93-95 | min and max are samples bounding all others, the median lies between |
| `SampleStats.MeanBetween` | apple/src/probe_helpers.c:88-96 | the mean lies between min and max |
| `SampleStats.MedianSplits` | apple/src/probe_helpers.c:94 | at least count/2 + 1 samples are at most the median, at least count - count/2 at least it |
| `SampleStats.MedianNearMean` | apple/src/probe_helpers.c:94-103 | (median - mean)^2 is at most the variance |
| `SampleStats.VarianceWithinRange` | apple/src/probe_helpers.c:93-103 | four times the variance is at most (max - min)^2 |

## Left out

- CUDA runtime calls, event timing, device queries, files, environment, timers and the measured numbers themselves.
- Floating-point and NEON kernels, `sqrt`, `cv_percent`, and rounding: statistics and kernel sums are exact reals.
- Double leaves of JSON values, and negative `indent` or 32-bit overflow of `indent * depth`.
- Table, CSV and usage text, `probe_format_bytes`, and the strtoull-based option parsers of the Apple tools.
- `kernel_stream_*`, the branch and load/store proxies, and the add, sub, madd and independent chains: they would add only easy members.
- Allocation failure and `exit` paths.
- MemChase.RunSize: the bytes a copy or a load outside the table finds there are not modelled; such a run ends in an outcome of its own.
- PointerRings.PointerRing.Load: addresses are unbounded numbers.
- PointerRings.MakePointerRing: assumes strides of at least eight bytes, so that slots do not overlap, and a buffer inside the address space, so that `nodes * stride` does not wrap; the callers use 64 bytes and the page size.
- PointerRings.MakePointerRingUnchecked: assumes the same.
- PointerRings.MlpChase: the order of the loads within one block is round-robin over streams, not overlapped.
- GridStride.RaceFree: steps of different threads interleave; relaxed memory effects inside one step are not modelled.
- HbmProbe.ProbeResult: says nothing for an empty grid; `GridNonEmpty` says exactly which sizes have one. For a negative block count the source already multiplies it by 256 in int and asks for a partial buffer of that size before any launch; for a count of zero the launch has no blocks.
- StartGate.RunInv: steps are sequentially consistent, as the acquire and release operations on the flag make them; thread creation and join failures are not modelled.
- JsonBuilder.JsonCell.Index: the returned reference is modelled by its value; writing through it is `Assign`.
- JsonReader.ReadText: the reader rejects fractions, exponents and surrogate escapes, which the printer never produces for the values modelled here.
- SampleStats.ProbeStatsFrom: `qsort` is modelled by its result, the unique sorted arrangement.
