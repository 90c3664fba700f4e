# OmniCompute, modelled and proved in Dafny

OmniCompute compiles captured CUDA kernels for other hardware and farms tensor work out to untrusted peers. This project models the parts of it whose correctness is not visible in any single function and proves what they are for.

- **Obfuscation** (`Matrices`, `Elimination`, `Obfuscator`): Gauss-Jordan inversion in place on the flat augmented buffer, and the tensor round trip through a private matrix. The proof follows the loop with a matrix G that undoes the row operations so far: with the buffer read as [L | E], E·A = L and G·E = I hold after every row operation. A refusal yields a vector with a component 1 that the matrix sends below the pivot threshold, so a matrix that is diagonally dominant by the threshold is never refused.
- **The optimiser** (`Dialect`, `Semantics`, `ConstantFolding`, `OperatorFusion`, `FusionLimits`, `DeadCode`, `Passes`, `Pipeline`): the four passes as they mutate a module, an interpreter, and exactly when each pass preserves meaning and the whole pipeline keeps the module's result.
- **The Vulkan matrix-product kernel** (`TiledKernel`, `KernelProduct`, `KernelFit`, `Vulkan`): the emitted shader, with whatever tile sizes the operation carries, as threads with shared tiles and barriers under every schedule; and the tile sizes for which it computes the product.
- **Memory** (`Allocator`, `Pager`): the DUVAS allocator, the pager's worker alone, and every interleaving of clients with the worker, whose check and migration are separate lock acquisitions.
- **The JIT cache** (`Hashing`, `HashWindows`, `Jit`): the two hashes, exactly how close together two strings must differ for them never to collide, and exactly when the cache is transparent.
- **Task routing** (`Router`): blind splitting and scheduling.

Floating-point numbers are real numbers throughout. Operations the interpreter does not give a formula for, `exp`, `erf`, run-time dimensions and the broadcasting index map are parameters of the semantics, so the theorems hold whatever they are. Everything the source mutates is a class field, an array or a loop variable here, and each such method is proved against a function of the old state; the theorems are then about those functions.

## Where the code does not do what it says

Each of these is proved; the members whose names end in `Iff` give the exact condition under which the code does do it, for all inputs.

- `generate` comments that its diagonal offset guarantees an invertible, strictly dominant matrix. That holds for dimension 2 and below and fails from 3 on (`OffsetGuaranteesInvertibilityIff`).
- After fusion the ids are no longer positions, but dead code elimination takes the operation with id `op_count - 1` for the root. The module's result stays defined exactly when fusion fired never, or once and on the last two operations (`ResultSurvivesIff`); a fused pair before the end can empty the module (`FusionThenDceLosesResult`).
- Fusing a product with an Add drops every operand that is the product, so a product added to itself is halved: 2·A·B becomes A·B (`SelfAddHalves`). Fusion also does not check whether the product already carries a fused step, which the new one replaces: in one module a second run turns 1 into 2 (`FusingTwiceChangesValue`). For every product that any number of runs can produce, `FusedPairMeaningIff` gives the exact condition, called *faithful*: the product carries no step yet, and an Add finds no operand besides the two factors and is not a self-add; or both steps are Relu. A product of two factors takes a second step without loss exactly when both are Relu (`SecondFusionIff`).
- With one reader per product, fusion preserves a module's meaning exactly when every pair is faithful (`FusionKeepsMeaningIff`), and so do fold, fuse and tile together (`RewritesKeepMeaningIff`); the whole pipeline keeps the result with its value exactly when it stays defined and every pair is faithful (`PipelineKeepsResultIff`).
- Fusion does not check that the product has one reader. A second reader is left with an operand nothing defines, and that is the only way to get one (`DanglingReadIff`); in one module 9 becomes 0 (`SecondReaderStarves`).
- A fused Add emits no code in the Vulkan kernel: the output is right exactly when the bias is zero wherever it meets the product (`KernelDropsBias`, `BiasPairEndToEndIff`); in one module 7 becomes 6 (`BiasModuleLosesBias`).
- The CPU and remote backends use the same generator with tiles of 8 under its 16 by 16 workgroup. The kernel is right exactly when all three tiles are 16 (`KernelRightIff`), so of the backends that use it only for Vulkan (`TilesFitIff`); for the others every finished run indexes outside its tiles, and past 8 rows two threads write one cell (`NarrowBackendsMisbehave`).
- The allocator's counter is documented to make addresses unique. Two allocations return the same address exactly when the earlier one and all between them are of size 0 (`AddressSharedIff`).
- The pager's worker checks a block's domain and migrates it under separate locks. An eviction decided while the block was resident takes it from where the check would not have exactly when a client's last migration meanwhile sent it to a peer or to swap (`EvictionOvertakenIff`, `PeerBlockEvicted`); if clients never do, the split never shows (`SplitHarmless`).
- The JIT cache key mixes the kernel id into the hash of the text, and every id step is invertible: for any two texts some pair of ids collides (`CollidingId`). Under arbitrary ids a cache is transparent exactly when all its texts compile alike or none compiles (`TextsShareCacheIff`); otherwise a text is answered with another's kernel (`WrongKernelServed`).
- `slide_window` documents its active layers as pinned but only logs their number (`ActiveLayerStaysIff`).

Constant folding relies on unique names, which `StaleConstantChangesMeaning` shows with a module that redefines one.

## Model

| member | source | states |
|---|---|---|
| Matrices.MulAssoc | omni-net/src/crypto/obfuscator.rs:71-80 | the product loops of obfuscate and restore are associative, for all inner dimensions |
| Matrices.LeftInverseIsTwoSided | omni-net/src/crypto/obfuscator.rs:162-170 | a left inverse that has a left inverse is a two-sided inverse |
| Elimination.FindPivot | omni-net/src/crypto/obfuscator.rs:123-129 | the first row from i on with the largest absolute entry in column i |
| Elimination.SwapRows | omni-net/src/crypto/obfuscator.rs:136-143 | the in-place swap exchanges exactly two rows |
| Elimination.ScaleRow | omni-net/src/crypto/obfuscator.rs:145-149 | the in-place scaling divides exactly one row |
| Elimination.EliminateRow | omni-net/src/crypto/obfuscator.rs:151-157 | the in-place elimination subtracts a multiple of the pivot row from exactly one row |
| Elimination.SwapTracks | omni-net/src/crypto/obfuscator.rs:136-143 | swapping rows keeps E·A = L and G·E = I, G swapping columns |
| Elimination.ScaleTracks | omni-net/src/crypto/obfuscator.rs:145-149 | scaling a row keeps them, G scaling a column back |
| Elimination.EliminateTracks | omni-net/src/crypto/obfuscator.rs:151-157 | eliminating a row keeps them, G adding a column |
| Elimination.EliminateColumn | omni-net/src/crypto/obfuscator.rs:151-159 | after the inner loops column i is a unit column, earlier ones still are, and the invariant holds |
| Elimination.Augment | omni-net/src/crypto/obfuscator.rs:111-119 | the buffer starts as [A, I] |
| Elimination.ReduceColumn | omni-net/src/crypto/obfuscator.rs:122-160 | one pass of the outer loop: it refuses exactly when the column holds nothing a millionth or more away from 0 from row i on, and then a near-kernel vector exists; otherwise the buffer is the one the pass specifies and the invariant advances |
| Elimination.NoPivot | omni-net/src/crypto/obfuscator.rs:131-134 | a column without pivot yields a vector with a 1 in it that A sends below the threshold, and to 0 when the column is all zero |
| Elimination.FullyReduced | omni-net/src/crypto/obfuscator.rs:162-170 | a fully reduced buffer holds a two-sided inverse in its right half |
| Elimination.DominantHasNoNearKernel | omni-net/src/crypto/obfuscator.rs:47-48 | diagonal dominance by the threshold rules near-kernel vectors out |
| Elimination.Invert | omni-net/src/crypto/obfuscator.rs:110-171 | refuses exactly when some pass finds no entry of at least 0.000001; a result is a two-sided inverse; a refusal exhibits a vector with a 1 in it sent within 0.000001 of 0; a matrix dominant by that is never refused |
| Obfuscator.Multiply | omni-net/src/crypto/obfuscator.rs:71-82 | the accumulator loops compute the row-major matrix product |
| Obfuscator.ProductIs | omni-net/src/crypto/obfuscator.rs:71-80 | entry r·dim + c of that product is the sum of x[r·dim + k]·m[k·dim + c] |
| Obfuscator.ObfuscationMatrix.Obfuscate | omni-net/src/crypto/obfuscator.rs:62-83 | shape error or X·P |
| Obfuscator.ObfuscationMatrix.Restore | omni-net/src/crypto/obfuscator.rs:86-107 | shape error or X·P⁻¹ |
| Obfuscator.RestoreRecoversRowMix | omni-net/src/crypto/obfuscator.rs:62-107 | restore(M·obfuscate(X)) = M·X for every M, row count and tensor of matching shape |
| Obfuscator.RoundTripIff | omni-net/src/crypto/obfuscator.rs:10-17 | restore undoes obfuscate on all tensors exactly when data·inverse = I |
| Obfuscator.GenerateAttempt | omni-net/src/crypto/obfuscator.rs:39-56 | one attempt: the draws with 15 added on the diagonal; usable when it succeeds, explained when it fails, always successful up to dimension 2 |
| Obfuscator.KernelMeansSingular | omni-net/src/crypto/obfuscator.rs:131-134 | a matrix that kills a non-zero vector has no inverse |
| Obfuscator.OffsetGuaranteesInvertibilityIff | omni-net/src/crypto/obfuscator.rs:47-48 | every drawable matrix is free of near-kernel vectors exactly up to dimension 2; beyond, one has no inverse |
| Dialect.OmniModule.PushOp | omni-core/src/mlir/dialect.rs:372-381 | appends with the next id, records the type, keeps ids equal to positions |
| ConstantFolding.FoldPreservesMeaning | omni-core/src/mlir/passes.rs:70-108 | folding an SSA module changes no name's value |
| ConstantFolding.FoldInvariant | omni-core/src/mlir/passes.rs:72-104 | every known constant is the Fill tensor its name evaluates to |
| ConstantFolding.KnownConstants | omni-core/src/mlir/passes.rs:72-80 | the constants known after a prefix are exactly the outputs of its folded Fills |
| ConstantFolding.FoldsToValue | omni-core/src/mlir/passes.rs:82-99 | an Add or Mul of two outputs of earlier Fills of x and y becomes Fill(x + y) or Fill(x·y) |
| ConstantFolding.FoldsExactly | omni-core/src/mlir/passes.rs:82-103 | an operation of two or more operands changes exactly when it is an Add or Mul that reads earlier Fills alone |
| ConstantFolding.FoldIdempotent | omni-core/src/mlir/passes.rs:70-108 | folding twice is folding once |
| ConstantFolding.NothingLeftToFold | omni-core/src/mlir/passes.rs:82-99 | no Add or Mul of earlier Fills survives |
| ConstantFolding.FoldKeepsShape | omni-core/src/mlir/passes.rs:82-103 | only kinds change, and only from Add or Mul to Fill: a folded Fill still lists its operands |
| ConstantFolding.StaleConstantChangesMeaning | omni-core/src/mlir/passes.rs:72-104 | with a redefined name the folded module computes 2 instead of 10 |
| FusionLimits.FusedPairMeaningIff | omni-core/src/mlir/passes.rs:153-177 | for every product that runs of the pass can produce, the fused operation computes what the pair computes in sequence, for all semantics and environments, exactly when the pair is faithful |
| FusionLimits.SecondFusionIff | omni-core/src/mlir/passes.rs:156-160 | a product of two factors that was fused once takes a second consumer without loss exactly when both steps are Relu |
| OperatorFusion.FusedCarries | omni-core/src/mlir/passes.rs:156-173 | what a fused product carries: the consumer's step, overwriting any earlier one; fused products stay within the products considered |
| FusionLimits.SelfAddHalves | omni-core/src/mlir/passes.rs:163-169 | a product added to itself: 6 before fusion, 3 after |
| FusionLimits.FusionKeepsMeaningIff | omni-core/src/mlir/passes.rs:119-186 | with one reader per product, every name but the fused-away products keeps its value under all semantics exactly when every pair is faithful |
| OperatorFusion.FusionPreservesMeaning | omni-core/src/mlir/passes.rs:119-186 | the positive half for one semantics and environment |
| OperatorFusion.FusionSimulates | omni-core/src/mlir/passes.rs:128-182 | the runs before and after fusion differ only on names nothing reads any more |
| OperatorFusion.DefinesAfterFusion | omni-core/src/mlir/passes.rs:171-181 | fusion removes the definitions of the fused-away products and no other |
| FusionLimits.DanglingReadIff | omni-core/src/mlir/passes.rs:141-147 | the fused module reads a name whose definition fusion removed exactly when some product had a second reader |
| FusionLimits.SecondReaderStarves | omni-core/src/mlir/passes.rs:141-147 | a second reader of a fused product: 9 before fusion, 0 after |
| FusionLimits.ReadsAfterFusion | omni-core/src/mlir/passes.rs:162-169 | fusion keeps every read except each consumer's read of its own product |
| FusionLimits.FusingTwiceChangesValue | omni-core/src/mlir/passes.rs:156-160 | a module worth 1, still 1 after one run of the pass, 2 after two |
| OperatorFusion.FuseIsMerged | omni-core/src/mlir/passes.rs:128-182 | fusion replaces, in place, exactly each MatMul or BatchedMatMul directly followed by a Relu, Gelu, Silu or Add that reads it: that kind's name as "fused_activation", an Add's other operands appended, the follower's output and type |
| OperatorFusion.FuseLength | omni-core/src/mlir/passes.rs:175-181 | each fusable neighbouring pair costs exactly one operation, so pairs do not overlap |
| OperatorFusion.LastAfterFusion | omni-core/src/mlir/passes.rs:171-181 | what the last operation becomes |
| DeadCode.DceKeepsExactlyNeeded | omni-core/src/mlir/passes.rs:236-255 | keeps, in order, exactly the operations from which reads lead to the root |
| DeadCode.DceLosesNoDefinition | omni-core/src/mlir/passes.rs:242-247 | no kept operation loses a definition it read |
| DeadCode.KeptIsRead | omni-core/src/mlir/passes.rs:240-242 | every kept operation but the root is read by an operation kept after it |
| DeadCode.SweepAgrees | omni-core/src/mlir/passes.rs:236-251 | every referenced name keeps its value |
| DeadCode.LastSurvivesIff | omni-core/src/mlir/passes.rs:237-242 | the last operation survives, with its value, exactly when its id is op_count - 1 |
| Passes.PassManager.RunConstantFolding | omni-core/src/mlir/passes.rs:70-108 | the loop over ops with its constant map computes Fold, on modules where it does not panic |
| Passes.PassManager.FusePair | omni-core/src/mlir/passes.rs:153-173 | the clone-and-edit of a pair, with the loop over the consumer's inputs |
| Passes.PassManager.RunOperatorFusion | omni-core/src/mlir/passes.rs:119-186 | the index loop with its skip set computes Fuse, and the position-by-position merge |
| Passes.PassManager.RunLoopTiling | omni-core/src/mlir/passes.rs:193-224 | the in-place annotation of every product: sides 64, 32, 16, 8 or 8 by backend, depth 16, vector width 4 |
| Passes.PassManager.RunDce | omni-core/src/mlir/passes.rs:229-257 | the backward sweep and final reversal compute Dce |
| Passes.PassManager.Run | omni-core/src/mlir/passes.rs:46-63 | the four passes in order |
| Passes.TilingPreservesMeaning | omni-core/src/mlir/passes.rs:207-221 | tiling annotations change no value |
| Pipeline.FoldKeepsFusable | omni-core/src/mlir/passes.rs:46-63 | folding neither creates nor destroys a fusable pair of an SSA module |
| Pipeline.RewritesKeepMeaningIff | omni-core/src/mlir/passes.rs:50-52 | with one reader per product, fold, fuse and tile together keep every name but the fused-away products, under all semantics that type the module, exactly when every pair is faithful |
| Pipeline.ResultSurvivesIff | omni-core/src/mlir/passes.rs:237-242 | the result of a freshly built SSA module stays defined exactly when fusion fired never or once at the very end |
| Pipeline.PipelineKeepsResultIff | omni-core/src/mlir/passes.rs:46-63 | it stays defined with its value under every semantics exactly when, besides, every pair is faithful |
| Pipeline.FusionThenDceLosesResult | omni-core/src/mlir/passes.rs:240 | a three-operation module the pipeline empties |
| TiledKernel.StepEffects | omni-core/src/codegen/spirv.rs:93-135 | which step of a thread touches which tile, the sum or the output, and nothing else |
| TiledKernel.EnabledIff | omni-core/src/codegen/spirv.rs:106-112 | a thread waits only at the two barriers of a phase, and only for threads of its own workgroup that are behind it |
| TiledKernel.EveryScheduleOrderly | omni-core/src/codegen/spirv.rs:85-135 | for any tile sizes, at every moment of every schedule: barriers in step, each write by a thread of the grid to its own cell, no thread writing twice, none that ended without its write |
| KernelProduct.EveryScheduleKeepsInv | omni-core/src/codegen/spirv.rs:85-115 | with tiles of 16, besides: tiles loaded, sums partial, no access outside or before a write, stores correct |
| KernelProduct.PartialSumStep | omni-core/src/codegen/spirv.rs:108-110 | each multiply step adds the next term of the zero-padded dot product |
| KernelProduct.PadTail | omni-core/src/codegen/spirv.rs:93-104 | the zeros loaded past an edge do not change the sum |
| TiledKernel.EveryScheduleRaceFree | omni-core/src/codegen/spirv.rs:93-112 | for any tile sizes, at no moment of any schedule do two threads stand before accesses to one shared cell of which one is a write |
| TiledKernel.NoDeadlock | omni-core/src/codegen/spirv.rs:106-112 | until a thread has finished, some thread of its workgroup can move, wherever the other workgroups are |
| TiledKernel.EveryScheduleCanFinish | omni-core/src/codegen/spirv.rs:93-113 | every partial schedule extends to a finishing one |
| KernelProduct.NoCellWrittenTwice | omni-core/src/codegen/spirv.rs:115-135 | with tiles of 16 no schedule writes a cell of C twice |
| KernelProduct.FinishedRunComputesProduct | omni-core/src/codegen/spirv.rs:73-135 | with tiles of 16 every finished run leaves the activated product in C, for all M, N and K |
| KernelProduct.StoredActivation | omni-core/src/codegen/spirv.rs:126-135 | cell r·N + q of C then holds the product p of row and column, or max(p, 0), or p·0.5·(1 + erf(p·0.70710678)), or p / (1 + exp(-p)) |
| TiledKernel.ConfigReads | omni-core/src/codegen/spirv.rs:62-127 | which attributes the generator reads, and 16 for a tile size that is missing or of another type |
| KernelFit.CoverageIff | omni-core/src/codegen/spirv.rs:88-89 | every cell of every C belongs to exactly one thread just when the row and column tiles are 16 |
| KernelFit.FirstLoadsFault | omni-core/src/codegen/spirv.rs:82-104 | a thread's first loads index outside the shared arrays exactly when its ty or tx passes their declared sides |
| KernelFit.NarrowTileFaults | omni-core/src/codegen/spirv.rs:82-104 | with a tile under 16 every run that finishes a non-empty product has indexed outside a tile |
| KernelFit.NarrowTileWritesTwice | omni-core/src/codegen/spirv.rs:88-89 | with row tiles under 16, once there is a second group, every finished run writes some cell twice |
| KernelFit.KernelRightIff | omni-core/src/codegen/spirv.rs:63-136 | for all positive tile sizes: no fault, no cell written twice and the activated product in C, for all sizes, operands and schedules, exactly when all three tiles are 16 |
| Vulkan.TilesFitIff | omni-core/src/mlir/passes.rs:200-205 | of the backends that use this generator, the kernel of a tiled product is right for Vulkan alone |
| Vulkan.NarrowBackendsMisbehave | omni-core/src/jit.rs:75-79 | for the CPU and remote backends every finished run faults, and past 8 rows writes some cell twice |
| Vulkan.KernelMeansFusedOp | omni-core/src/codegen/spirv.rs:126-135 | with tiles of 16 the kernel of a product fused with Relu, Gelu or Silu computes what that operation means |
| Vulkan.KernelMeansPlainOp | omni-core/src/codegen/spirv.rs:58-136 | with tiles of 16 the kernel of an unfused product computes the product |
| Vulkan.KernelDropsBias | omni-core/src/codegen/spirv.rs:127-132 | a fused Add leaves the plain product, right exactly when the bias is zero wherever it meets the product |
| Vulkan.BiasPairEndToEndIff | omni-core/src/codegen/spirv.rs:127-132 | a product and an Add, optimised and run: C holds what the two mean exactly when that bias is zero |
| Vulkan.BiasModuleLosesBias | omni-core/src/codegen/spirv.rs:127-132 | 2·3 + 1: the module means 7, every finished run of its kernel stores 6 |
| Vulkan.PairEndToEnd | omni-core/src/codegen/spirv.rs:58-136 | optimise, emit and run under any finishing schedule: C holds what the two source operations mean |
| Allocator.DuvasAllocator.constructor | omni-core/src/memory/allocator.rs:61-71 | an empty allocator is consistent, and its first address is 0x10_0000_0000 |
| Allocator.DuvasAllocator.Alloc | omni-core/src/memory/allocator.rs:77-114 | new state, returned address, on the device exactly when it fits, accounting kept |
| Allocator.DuvasAllocator.Free | omni-core/src/memory/allocator.rs:117-133 | new state or the error, accounting kept, no underflow |
| Allocator.DuvasAllocator.Migrate | omni-core/src/memory/allocator.rs:136-170 | new state or the error, accounting kept, no underflow |
| Allocator.DuvasAllocator.GetMetrics | omni-core/src/memory/allocator.rs:173-180 | the counters are the sums over live and over resident blocks |
| Allocator.Aligned | omni-core/src/memory/allocator.rs:80-81 | the least multiple of 4096 that holds the size |
| Allocator.NoUnderflow | omni-core/src/memory/allocator.rs:120-124 | every decrement is covered by its counter |
| Allocator.AllocThenFreeIff | omni-core/src/memory/allocator.rs:77-133 | a free undoes the allocation, up to the next address, exactly when no zero-size block was overwritten |
| Allocator.AllocKeepsConsistent | omni-core/src/memory/allocator.rs:77-114 | counters exact, blocks aligned, disjoint and below the next address, even when a zero-size block is overwritten |
| Allocator.FreeKeepsConsistent | omni-core/src/memory/allocator.rs:117-133 | the same after a free |
| Allocator.MigrateKeepsConsistent | omni-core/src/memory/allocator.rs:136-170 | the same after a migration |
| Pager.UntilShutdownCuts | omni-core/src/memory/pager.rs:199-202 | the commands before the first Shutdown |
| Pager.RunWorker | omni-core/src/memory/pager.rs:129-205 | the receive loop applies, in order, every command before the Shutdown |
| Pager.DrainDecidesDomains | omni-core/src/memory/pager.rs:134-205 | each live address ends in the domain its command history decides; nothing else changes |
| Pager.VirtualSlidingPager.SlideWindow | omni-core/src/memory/pager.rs:95-123 | queues the evictions, then the prefetches |
| Pager.BatchPeak | omni-core/src/memory/pager.rs:109-120 | no intermediate device use exceeds the larger of before and after |
| Pager.BatchDecides | omni-core/src/memory/pager.rs:109-120 | where one batch leaves an address |
| Pager.ActiveLayerStaysIff | omni-core/src/memory/pager.rs:89-94 | an active resident layer stays exactly when it is prefetched or not evicted |
| Pager.EveryRunSound | omni-core/src/memory/pager.rs:129-205 | every interleaving keeps the accounting exact and the channel first-in first-out |
| Pager.StoppedMeansAllHandled | omni-core/src/memory/pager.rs:208-215 | once the worker has stopped, every command sent has been handled, Shutdown last |
| Pager.DropTerminates | omni-core/src/memory/pager.rs:208-215 | in every continuation after the drop, as many worker moves as work remains bring the worker to its stop |
| Pager.StoppedForever | omni-core/src/memory/pager.rs:199-202 | a stopped worker handles nothing more |
| Pager.AddressesNeverReused | omni-core/src/memory/allocator.rs:82-83 | a freed address below the next one stays free in every continuation |
| Pager.AddressSharedIff | omni-core/src/memory/allocator.rs:50-51 | over every run two allocations return one address exactly when the earlier and all between them are of size 0 |
| Pager.StaleMigrationIff | omni-core/src/memory/pager.rs:187-196 | the migration differs from a fresh check and migration exactly when an eviction finds its block on a peer or in swap |
| Pager.EvictionOvertakenIff | omni-core/src/memory/pager.rs:187-196 | an eviction goes wrong exactly when the clients' last migration between its check and its migration sent the block elsewhere and they have since neither freed nor replaced it |
| Pager.SplitHarmless | omni-core/src/memory/pager.rs:132-196 | in every run whose clients never send a block to a peer or to swap, each migration is what check and migration together would do |
| Pager.PeerBlockEvicted | omni-core/src/memory/pager.rs:187-196 | a run from the empty system in which the worker takes a block from a peer |
| Pager.AllocationRespectsCapacity | omni-core/src/memory/allocator.rs:85-96 | without prefetches and migrations to the device no interleaving exceeds the capacity |
| Pager.WorkerAloneDrains | omni-core/src/memory/pager.rs:134-205 | with no client in between, check and migration steps amount to draining the queue, up to a Shutdown if it holds one |
| Hashing.ComputeHashPtx | omni-core/src/jit.rs:95-102 | the hash loop computes the fold |
| Hashing.HashBytesStarts | omni-core/src/mlir/dialect.rs:498-502 | the hash of the empty string and of one byte, in numbers |
| Hashing.HashPtxStarts | omni-core/src/jit.rs:95-97 | the hash of the empty text: the id exclusive-or a number |
| Hashing.ScrambleInjective | omni-core/src/jit.rs:97-99 | wrapping multiplication by the prime loses nothing |
| HashWindows.SmallDigitsVanish | omni-core/src/mlir/dialect.rs:498-502 | up to six digits of at most 510 in base 2^40 + 435 make a multiple of 2^64 only when all are zero |
| HashWindows.HashBytesWindow | omni-core/src/mlir/dialect.rs:498-502 | no collision between strings that differ only within six consecutive bytes |
| HashWindows.HashBytesWindowIff | omni-core/src/mlir/dialect.rs:498-502 | changing n consecutive bytes always changes the hash exactly when n is at most 6 |
| HashWindows.SevenBytesCollide | omni-core/src/mlir/dialect.rs:498-502 | two strings of seven bytes whose hashes collide after any prefix and before any suffix |
| HashWindows.HashPtxWindow | omni-core/src/jit.rs:95-102 | no hash_ptx collision under one id between texts that differ only within six consecutive bytes |
| HashWindows.HashPtxWindowIff | omni-core/src/jit.rs:95-102 | under every id changing n consecutive bytes always changes hash_ptx exactly when n is at most 6 |
| Hashing.HashPtxSeparatesIds | omni-core/src/jit.rs:95-102 | one PTX text under two ids never collides |
| Hashing.CollidingId | omni-core/src/jit.rs:95-102 | for any two texts and any id of the first, some id of the second gives the same hash |
| Jit.LiftedForms | omni-core/src/mlir/dialect.rs:448-495 | the one operation a text lifts to: matrix instructions decide first, then division beside the exponential; the rest is opaque exactly when none of the words occurs |
| Jit.LiftedOptimised | omni-core/src/mlir/dialect.rs:448-495 | on a lifted one-operation module the pipeline only adds tiling attributes |
| Jit.OpaqueTextsDiffer | omni-core/src/mlir/dialect.rs:469-474 | unrecognised texts that differ only within six bytes lift to different operations |
| Jit.EntriesAreOutputs | omni-core/src/jit.rs:88-89 | every cache entry is the successful output for an input with its key; failures are never cached |
| Jit.CacheTransparentIff | omni-core/src/jit.rs:42-108 | over all call sequences the cache answers like the pipeline exactly when inputs with equal keys agree |
| Jit.OverlappingCompilationsFaithful | omni-core/src/jit.rs:46-91 | with lookup and insertion as separate atomic steps of many threads, every answer is still the pipeline's when inputs with equal keys agree |
| Jit.OverlappingFaithfulIff | omni-core/src/jit.rs:46-91 | over all interleavings that holds exactly when they do |
| Jit.EveryLookupAnsweredOnce | omni-core/src/jit.rs:46-91 | in every interleaving each compilation begun is pending or has been answered, once |
| Jit.SameTextTransparent | omni-core/src/jit.rs:42-102 | for one PTX text under any ids the cache is transparent |
| Jit.TextsShareCacheIff | omni-core/src/jit.rs:42-102 | for any texts under all ids the cache is transparent exactly when all compile alike or none compiles |
| Jit.WrongKernelServed | omni-core/src/jit.rs:46-49 | after one text is compiled, any text that compiles differently is answered with its kernel under some id |
| Jit.JitEngine.CompilePtx | omni-core/src/jit.rs:42-92 | lookup, lift, optimise, generate, insert on success |
| Jit.JitEngine.ClearCache | omni-core/src/jit.rs:105-108 | empties the cache |
| Router.BlindSplit | omni-net/src/scheduler/router.rs:61-92 | the loop computes the local and the offloadable part |
| Router.SplitConserves | omni-net/src/scheduler/router.rs:64-83 | nothing is lost, duplicated or invented |
| Router.SensitiveStaysLocal | omni-net/src/scheduler/router.rs:69-82 | exactly the MatMul, BatchedMatMul, Add, Mul and unary operations leave, never a Gather, Scatter or Softmax |
| Router.SplitIsStable | omni-net/src/scheduler/router.rs:67-83 | both parts keep increasing ids |
| Router.BestWorker | omni-net/src/scheduler/router.rs:114-129 | the first worker with the largest score, or the first worker at -1 when no score is above that; scores may be infinite or not a number |
| Router.MeasuredChosenIff | omni-net/src/scheduler/router.rs:114-129 | with non-negative figures the choice is always the first worker with the largest throughput / (1 + load/100) · 1000 / (latency + 1), the first divisor 100 from load 99 on |
| Router.DegenerateScore | omni-net/src/scheduler/router.rs:119-123 | the score at latency -1 or load -100, where it divides by zero |
| Router.ScheduleGlobalOps | omni-net/src/scheduler/router.rs:100-148 | every operation once, in order, to the chosen worker, at its score over the position; an error without workers |
| Router.ScoreMonotone | omni-net/src/scheduler/router.rs:119-123 | more throughput, less latency and less load never lower a score |

## Left out

- Rounding, overflow and NaN of f32, f64 and f16, and fixed widths of byte counters and addresses: numbers are reals and unbounded integers. The hashes do model 64-bit wrap-around, and the scheduler's scores the infinities and NaN of division by zero.
- GenerateAttempt: one pass of the retry loop with the random draws as an argument; termination of the loop is a matter of probability.
- RunConstantFolding: an Add or Mul whose operands are all known constants must have two of them, because with fewer the source indexes out of range and panics.
- FoldPreservesMeaning: takes unique names, binary Add and Mul, and operands that broadcast to the result type as the dialect's typing rules.
- FusionPreservesMeaning: takes faithful pairs of their kind's arity and one reader per product; the `Iff` members above and DanglingReadIff say what the other modules do.
- FusionSimulates: the same; it is the induction behind FusionPreservesMeaning.
- FusionKeepsMeaningIff: takes one reader per product; a second reader that ignores its operand loses nothing by fusion, and DanglingReadIff says when there is one.
- RewritesKeepMeaningIff: the same; PipelineKeepsResultIff takes any readers.
- FusedPairMeaningIff: the source gives no meaning to a product that records an Add but brings another number of operands than the two factors and one more; here it means the bare product, and an Add fused onto a fused Add is judged by that.
- EvictionOvertakenIff: takes a block at or below the next address, where all blocks of a consistent allocator are.
- FinishedRunComputesProduct: takes a dispatch of one workgroup per tile of C, which the caller of the kernel chooses, and treats each shared-memory access as atomic, which EveryScheduleRaceFree justifies.
- KernelRightIff: takes positive tile sizes; with others the shader's array declarations are invalid.
- Kernel text: the behaviour of the emitted shader is modelled, not its characters, and only the MatMul arm; a module of several operations would emit several entry points.
- The AMD and Metal generators: two more kernels with fixed 8 by 8 workgroups; nothing is claimed of them or of the tiles chosen for them.
- PTX lifting: which byte strings are UTF-8 is a parameter, and the value names are fixed because the lifter always emits one operation.
- RunWorker: bandwidth estimation, timing and logging are omitted; `estimated_kernel_ms` feeds only those.
- SlideWindow: sending cannot fail, since only the pager's destructor stops the worker.
- `omni-shim`, the peer-to-peer layer, the TEE module, control-flow flattening, hardware probing and the command line: I/O, foreign memory or library wrappers.
