# Mooncake data-path models in Dafny

This project models the parts of the Mooncake KV-cache store and of its SPDK GPU module in which
correctness hangs on an invariant that the code never writes down, and proves what those parts promise.
`dafny verify dfyconfig.toml` checks everything.

| files | what they model |
|---|---|
| `DmabufSpec`, `DmabufLookup`, `DmabufWrapped`, `DmabufDomain`, `Ledger` | the GPU dma-buf registration cache: regions, memory regions (MRs), two-neighbour tree lookups, registrations that wrap around, contexts, and the life of a domain |
| `PutPolicy`, `BatchStages`, `PutTheorems` | replicated puts: the finalize policy, the serial put as specification, the five batch stages and their agreement with it |
| `ShmMapping`, `RangedRead`, `RangedReadTheorems`, `RangedReadCells` | translation of dummy addresses, and ranged reads over ragged requests: what is written, and what each fragment is answered |
| `SegmentSpec`, `SegmentChunks`, `SegmentClient`, `SegmentLife` | mounting in chunks, immediate and graceful unmounting, timers, callbacks and teardown: as a state machine, as what the loops compute, as the object that runs it, and over its whole life |
| `MemoryLocation`, `SegmentsLocation`, `SegmentsParsing` | the NUMA page scan and the `segments:` location names |
| `BlockCoalescing`, `BlockTransfer` | the block lists of the vLLM connector |
| `Machine`, `Arithmetic`, `Store` | 64-bit words, arithmetic lemmas, error codes |

How the pieces fit:

- The cache specification is a relation over sets of regions and MRs. Its invariant is proved over every
  run. The lookups are proved exact under that invariant, the domain object refines the relation, and
  `Lifetime` closes the loop over a whole life including every failure exit.
- A put is specified serially. The batch stages are loops over an array of operations; each is proved to
  act on every operation independently, so per-key theorems carry over to batches of any size.
- A ranged read is specified by the list of writes it makes. The loops are proved to apply exactly that
  list, and the theorems speak about the list.
- Every critical section of the mount code is one action, with the unlocked steps next to it that concern
  its own id only (`MountChunk` includes acquiring the memory and giving it back on refusal) and with the
  destructor's sections up to the cleared maps joined in `CloseMaps`. A list of actions is an interleaving
  of any number of threads. Each call of the object is proved to be a list of such actions, so `Lifetime` of the
  segment client, any calls followed by teardown, is a run and inherits what holds of every run.

Foreign code is a parameter: GPU driver, verbs, allocators, master RPCs, transfers, the transfer engine,
page status queries. Theorems hold for every answer.

## What does not hold

Where a promise fails, the code is modelled as it is, a lemma shows an input, and the exact condition is proved.

- A registration whose end wraps around 2^64 enters the region tree. It can hide part of a declared region
  from the containment lookup, hide a whole region from the overlap lookup, and so let the next ordinary
  registration in over a declared region. When each of the three happens is exact:
  `WrappedInsertFaithfulIff`, `WrappedOverlapFaithfulIff`, `WrappedNextKeepsApartIff`; inputs are in
  `WrappedExample` and `WrappedOverlapExample`.
- An empty translation on a shared boundary may be answered with the neighbour's MR: `EmptyRangeExample`,
  exactly when `EmptyHitForeignIff` says.
- An invalidation from address 0, or of a range whose end is not an address, takes nothing, although the
  range covers declared regions, and translations keep succeeding with the old keys: `MissedExample`,
  `MissedKeepsKeys`; `InvalidationTakesIff` says exactly when an invalidation takes what it covers.
- Batch and single put disagree when a started operation is answered OBJECT_ALREADY_EXISTS, which the batch
  collects as stored, and when a flexible policy without NoF replicas is met by NoF replicas alone:
  `ExistingExample`, `PolicyGapExample`, `BatchAgreesWithPut`. They also differ in the first error (`FirstErrorsAgreeIff`)
  and in the calls for an empty allocation, after a failed End, and in the policy gap (`CallsAgreeWithPut`).
- A flexible-mode End may vouch for replicas that were not written: `TwoReplicasUnsafe`, `FlexibleEndsOnlyWrittenIff`.
- The last-hit shortcut and the plain scan differ for empty buffers on a border: `EmptyBufferExample`,
  exactly when `WalkDiffersIff` says.
- A rollback whose unmount is refused releases memory while the id stays mounted: `StrandedExample`,
  `UnbackedIffStranded`; which ids a failed call leaves so is stated by `MountSegment` and
  `AllocateAndMountSegment`.
- An empty range that starts a page, and a range from the first page of the address space into the last,
  have a page count of zero, and the scan then reads the status of a page it did not ask about: `NoPagesExample`,
  `NoPagesIff`.
- `segments:` names without nodes do not parse (`RoundTrip`), and pages are split between nodes when the
  length is not the one the client sets up (`SplitPage`, `PagesWholeIff`).

## Model

| member | source | states |
|---|---|---|
| `DmabufSpec.NextKeepsInv` | spdk/lib/dma/gpu_dmabuf.c:758-952 | One register, translate or invalidate step keeps the cache invariant: regions non-empty, not wrapping and pairwise disjoint; every cached MR has exactly the range and device of a declared region; at most one MR per region and protection domain |
| `DmabufSpec.ReachableInv` | spdk/lib/dma/gpu_dmabuf.c:758-952 | The invariant holds in every state of every run from the empty cache, whatever driver, verbs and allocator answer |
| `DmabufSpec.ReachableMrsDisjoint` | spdk/lib/dma/gpu_dmabuf.c:657-756 | In every reachable state two MRs of one device and protection domain share no byte |
| `DmabufSpec.ServeKeepsInv` | spdk/lib/dma/gpu_dmabuf.c:789-799 | Serving a declared region keeps the invariant and the declared regions, keeps every cached MR, and on success the returned keys are those of the region's own MR |
| `DmabufSpec.DeclareKeepsInv` | spdk/lib/dma/gpu_dmabuf.c:620-655 | Adding a range that crosses no declared region keeps the invariant |
| `DmabufSpec.RegisterWitness` | spdk/lib/dma/gpu_dmabuf.c:789-803 | A registration that changes anything first declares (or finds) one region and then serves it; a failed MR registration leaves the region declared |
| `DmabufSpec.HolderUnique` | spdk/lib/dma/gpu_dmabuf.c:576-596 | A non-empty range lies in at most one declared region |
| `DmabufSpec.HoldsExact` | spdk/lib/dma/gpu_dmabuf.c:344-364 | For a declared region the wrapping containment test is the one over the integers |
| `DmabufSpec.MeetsExact` | spdk/lib/dma/gpu_dmabuf.c:344-364 | For a declared region and a range whose end is an address the wrapping overlap test is the one over the integers |
| `DmabufSpec.NextKeepsMr` | spdk/lib/dma/gpu_dmabuf.c:851-952 | Every call but an invalidation that takes its region keeps a cached MR; an invalidation from address 0 or of a wrapping range takes none |
| `DmabufSpec.MrPersists` | spdk/lib/dma/gpu_dmabuf.c:851-952 | A cached MR survives any stretch of a run that holds no invalidation that takes its region |
| `DmabufSpec.TranslateCovers` | spdk/lib/dma/gpu_dmabuf.c:851-904 | A successful translation returns the keys of an MR on the caller's protection domain whose region covers the range |
| `DmabufSpec.KeysStable` | spdk/lib/dma/gpu_dmabuf.c:851-904 | Once a translation answered from a region, every later non-empty translation inside it for the same protection domain succeeds with the same keys until an invalidation takes the region |
| `DmabufSpec.StaysClear` | spdk/lib/dma/gpu_dmabuf.c:928-952 | A range cleared by an invalidation stays clear until an overlapping range is registered |
| `DmabufSpec.InvalidatedRefused` | spdk/lib/dma/gpu_dmabuf.c:928-952 | After an invalidation that does not start at address 0 every non-empty translation inside its range fails with -EINVAL and changes nothing, until an overlapping range is registered again |
| `DmabufSpec.InvalidationTakesIff` | spdk/lib/dma/gpu_dmabuf.c:928-952 | In every run, an invalidation whose range shares a byte with a declared region takes that region and all its MRs if and only if it starts at a non-zero address, is not empty and its end is an address; otherwise it takes nothing |
| `DmabufSpec.MissedKeepsKeys` | spdk/lib/dma/gpu_dmabuf.c:928-952 | Over runs, invalidations that fail this condition leave the keys of a region in force even if they cover it |
| `DmabufSpec.MissedExample` | spdk/lib/dma/gpu_dmabuf.c:928-952 | A concrete run: a region is declared, invalidated from address 0 and with a wrapping length, and still served |
| `DmabufLookup.FindRegionComplete` | spdk/lib/dma/gpu_dmabuf.c:576-596 | Looking at the least key >= the query and its predecessor finds a containing region exactly when a scan of the whole tree would |
| `DmabufLookup.FindOverlappingRegionComplete` | spdk/lib/dma/gpu_dmabuf.c:598-618 | The same for overlapping regions |
| `DmabufLookup.FindMrComplete` | spdk/lib/dma/gpu_dmabuf.c:522-547 | The two-neighbour MR lookup finds a containing MR of the device and protection domain exactly when a scan of the whole tree would, across group boundaries of the lexicographic order |
| `DmabufLookup.FindOverlappingMrComplete` | spdk/lib/dma/gpu_dmabuf.c:549-574 | The same for overlapping MRs |
| `DmabufLookup.InvSeparatesGroups` | spdk/lib/dma/gpu_dmabuf.c:236-257 | The cache invariant gives the disjointness per (device, pd) group that the MR lookups rely on |
| `DmabufLookup.GroupLeftOfNeighbours` | spdk/lib/dma/gpu_dmabuf.c:236-257 | An MR of the group left of both inspected neighbours ends before the query |
| `DmabufLookup.GroupRightOfNeighbour` | spdk/lib/dma/gpu_dmabuf.c:236-257 | An MR of the group right of the first neighbour means that the neighbour is of the group and starts at or after the query |
| `DmabufLookup.MissMeansNoCollision` | spdk/lib/dma/gpu_dmabuf.c:877-892 | A lookup miss inside a declared region means no MR of its device and pd overlaps the whole region or has its key, so neither -EEXIST exit of the registration can be taken |
| `DmabufLookup.HitIsOwn` | spdk/lib/dma/gpu_dmabuf.c:877-892 | A lookup hit for a non-empty range inside a region is that region's own MR |
| `DmabufLookup.InsertRegionKeeps` | spdk/lib/dma/gpu_dmabuf.c:640-654 | Insertion fails exactly on an equal key; otherwise the tree stays sorted and gains just that region |
| `DmabufLookup.InsertMrKeeps` | spdk/lib/dma/gpu_dmabuf.c:744-753 | The same for the MR tree and its three-part key |
| `DmabufWrapped.WrappedIsDead` | spdk/lib/dma/gpu_dmabuf.c:344-364 | A region whose end wraps around neither contains nor overlaps any range |
| `DmabufWrapped.WrappedPassesChecks` | spdk/lib/dma/gpu_dmabuf.c:626-638 | A wrapping registration passes both checks of every tree |
| `DmabufWrapped.WrappedInsertFaithfulIff` | spdk/lib/dma/gpu_dmabuf.c:576-655 | After a wrapping registration has gone into the tree, the containment lookup agrees with a full scan if and only if the new entry does not start inside a declared region |
| `DmabufWrapped.WrappedOverlapFaithfulIff` | spdk/lib/dma/gpu_dmabuf.c:598-655 | After a wrapping registration has gone into the tree, the overlap lookup agrees with a full scan if and only if the new entry does not start inside a declared region and either no region follows it or its first byte is declared |
| `DmabufWrapped.WrappedNextKeepsApartIff` | spdk/lib/dma/gpu_dmabuf.c:620-655 | After that the next ordinary registration keeps the declared regions disjoint if and only if the wrapped entry does not start inside a region and either no region follows it, or the byte before it is declared, or no address before it can be registered |
| `DmabufWrapped.WrappedExample` | spdk/lib/dma/gpu_dmabuf.c:576-655 | A concrete wrapping registration that makes half of a declared region unreachable |
| `DmabufWrapped.WrappedOverlapExample` | spdk/lib/dma/gpu_dmabuf.c:598-655 | A concrete wrapping registration in front of a region after which an ordinary one is admitted over that region |
| `DmabufLookup.EmptyRangeExample` | spdk/lib/dma/gpu_dmabuf.c:851-904 | A concrete empty range on a shared boundary that is found in one region and served by the neighbour's MR |
| `DmabufLookup.EmptyHitForeignIff` | spdk/lib/dma/gpu_dmabuf.c:851-904 | An empty range found in a region is served by another region's MR if and only if the region starts there, has no MR for the protection domain, and a region of its device that ends there has one |
| `DmabufDomain.GpuDomain.GetCudaCtx` | spdk/lib/dma/gpu_dmabuf.c:423-471 | Succeeds exactly when the domain has a context, the device's context was retained before, or a real device's context can be retained now; a failure leaves contexts and call log unchanged; at most one retain per device |
| `DmabufDomain.GpuDomain.SetCudaCtx` | spdk/lib/dma/gpu_dmabuf.c:473-504 | Exact success condition; on success the requested context is current, on failure nothing changed, and the previous one is reported whenever it was replaced |
| `DmabufDomain.GpuDomain.RestoreCudaCtx` | spdk/lib/dma/gpu_dmabuf.c:506-520 | The previous context is current again if it had been replaced and the driver accepts it |
| `DmabufDomain.GpuDomain.EnterContext` | spdk/lib/dma/gpu_dmabuf.c:682-692 | On success the context of the domain or the retained one of the device is current and the previous one is known; on failure nothing changed; each refusal of the driver is a failure |
| `DmabufDomain.GpuDomain.AddRegion` | spdk/lib/dma/gpu_dmabuf.c:620-655 | Refines the declare step of the specification: same-device containment succeeds unchanged, crossing or foreign-device ranges are refused, anything else becomes a region; in any state whatever passes both lookups with an unused key and memory goes in, wrapping or not |
| `DmabufDomain.GpuDomain.RegisterMr` | spdk/lib/dma/gpu_dmabuf.c:657-756 | -EEXIST before any foreign call on an overlap; on success exactly one MR with the given range, device and pd is added, registered at the right offset inside the exported allocation; a failure leaves the cache unchanged; if foreign code cooperates only -EEXIST can fail it; contexts are restored |
| `DmabufDomain.GpuDomain.LocateRange` | spdk/lib/dma/gpu_dmabuf.c:694-729 | Succeeds if and only if the driver knows the allocation, the range lies in it over the integers and the export is granted, with the offset of the range; the previous context is current again if it had been replaced and the driver accepts it |
| `DmabufDomain.GpuDomain.ExportRange` | spdk/lib/dma/gpu_dmabuf.c:682-729 | Success only for a range inside the exported allocation, with its offset, looked up while the context of the domain or of the device is current; succeeds whenever foreign code cooperates; fails without a context; restores the caller's context on every exit |
| `DmabufDomain.GpuDomain.ImportMr` | spdk/lib/dma/gpu_dmabuf.c:731-756 | The descriptor is closed whatever verbs answers and a duplicate MR is deregistered; the cache gains exactly the new MR on success; the error code follows errno |
| `DmabufDomain.ImportBalanced` | spdk/lib/dma/gpu_dmabuf.c:731-756 | The calls of one import leave nothing held but the MR that was kept, and release nothing that was not held |
| `DmabufDomain.GpuDomain.ServeRegion` | spdk/lib/dma/gpu_dmabuf.c:789-799 | Refines the serve step: the cached MR if there is one, else one registration; never -EEXIST; succeeds whenever foreign code cooperates |
| `DmabufDomain.GpuDomain.Register` | spdk/lib/dma/gpu_dmabuf.c:758-803 | Refines the register step for every cache that satisfies the invariant and every non-wrapping range; a wrapping range becomes a region exactly when memory suffices and its key is unused, and drops no MR; succeeds whenever nothing but foreign code could refuse it and it cooperates; the caller's context is restored; a range that meets no region, with foreign code that cooperates, succeeds and is declared for the domain's own device or, in a domain without one, for the device of the pointer, without which it fails with -EFAULT |
| `DmabufDomain.NewRangeDeclared` | spdk/lib/dma/gpu_dmabuf.c:758-803 | A successful registration of a range that shares no byte with a region declares just that range for its device |
| `DmabufDomain.GpuDomain.Translate` | spdk/lib/dma/gpu_dmabuf.c:851-904 | Refines the translate step; succeeds for a declared range whenever foreign code cooperates; the caller's context is restored, stated over the integers: any non-empty range inside a region |
| `DmabufDomain.GpuDomain.InvalidateRange` | spdk/lib/dma/gpu_dmabuf.c:928-952 | Removes exactly the MRs and the regions that overlap the range, and deregisters each removed MR once |
| `DmabufDomain.GpuDomain.DropMrs` | spdk/lib/dma/gpu_dmabuf.c:939-944 | Exactly the overlapping MRs are gone |
| `DmabufDomain.GpuDomain.DropRegions` | spdk/lib/dma/gpu_dmabuf.c:945-950 | Exactly the overlapping regions are gone |
| `DmabufDomain.GpuDomain.Destroy` | spdk/lib/dma/gpu_dmabuf.c:1069-1105 | Afterwards nothing acquired in the domain's lifetime is held, nothing was released twice, both trees and the context list are empty |
| `DmabufDomain.Create` | spdk/lib/dma/gpu_dmabuf.c:954-1054 | The exact result: -EINVAL for a device below -1, -ENOMEM, -ENODEV without CUDA or without a context of its own device, else the answer of the domain layer; each failure exit leaves nothing retained; a new domain is empty and valid, with the device and context it was given or retained |
| `DmabufDomain.Lifetime` | spdk/lib/dma/gpu_dmabuf.c:954-1105 | Create, any list of calls, destroy: every request is answered, a registration on the domain's device or the pointer's; every key handed out is that of an MR registered with verbs; every MR, descriptor and primary context is released exactly once on every path; the caller's context is restored if context restores succeed; and up to the first wrapping registration the calls are a run of the specification in which a request succeeds whenever nothing but foreign code could refuse it and it grants it |
| `Ledger.Conservation` | spdk/lib/dma/gpu_dmabuf.c:906-926 | At every moment of a disciplined call log each resource was acquired as often as it was released or is held |
| `Ledger.PrefixCounts` | spdk/lib/dma/gpu_dmabuf.c:906-926 | What was acquired at some moment of a call log stays acquired in its later history |
| `PutPolicy.DecisionPartitions` | mooncake-store/src/client_service.cpp:254-312 | The finalize decision ends or revokes each transferred replica type exactly once, succeeds exactly when it ends something, and carries an error exactly on failure |
| `PutPolicy.Put` | mooncake-store/src/client_service.cpp:1527-1661 | The calls and the verdict of a single put, written out over the replicas and the writes: in a reliable mode it is ended and succeeds if and only if the allocation is the one asked for and every memory and NoF replica was written, else it is revoked with NO_AVAILABLE_HANDLE or the error of the first failing write; in the flexible mode exactly the types with a written replica are ended and the other type is revoked, and without any everything is revoked; an error of End or Revoke is the result; a failed start makes no call |
| `PutPolicy.DecisionMeans` | mooncake-store/src/client_service.cpp:254-312 | The decision that ends, revokes and reports, in terms of the replicas granted and which of them were written |
| `PutPolicy.SummaryMeans` | mooncake-store/src/client_service.cpp:1578-1625 | The counters in terms of the replicas: how many of each type, whether some of a type was written, whether all were, and the error of the first failure |
| `PutPolicy.AllocationCounts` | mooncake-store/src/client_service.cpp:191-226 | The allocation counters are the numbers of memory and NoF replicas |
| `PutPolicy.SerialCounts` | mooncake-store/src/client_service.cpp:1578-1625 | After a serial put the success counters are the replicas written, successes plus failures are the replicas allocated, per type, and an error is recorded exactly when something failed |
| `PutPolicy.AllWrittenIff` | mooncake-store/src/client_service.cpp:191-226 | All replicas of a kind were written exactly when written and allocated counts agree |
| `BatchStages.StartBatchPut` | mooncake-store/src/client_service.cpp:1909-2007 | Every operation becomes the start step of itself; a response list of the wrong size fails all of them |
| `BatchStages.SubmitTransfers` | mooncake-store/src/client_service.cpp:2062-2144 | Every operation becomes the submit step of itself, independently of the others |
| `BatchStages.WaitForTransfers` | mooncake-store/src/client_service.cpp:2146-2182 | Every operation becomes the wait step of itself |
| `BatchStages.MembersExact` | mooncake-store/src/client_service.cpp:2202-2237 | A finalize group lists exactly the operations whose plan names it, in increasing order, none twice |
| `BatchStages.MemberRank` | mooncake-store/src/client_service.cpp:2284-2294 | The position of an operation in its group is the number of members before it, so a reply is booked to the operation it answers |
| `BatchStages.AddFinalizeAction` | mooncake-store/src/client_service.cpp:2202-2237 | One planned call enters exactly one group with key and index in step, raises only its own operation's counter and touches no other |
| `BatchStages.ProcessGroup` | mooncake-store/src/client_service.cpp:2271-2322 | Each listed operation loses one outstanding action and gets its own reply's error, or RPC_FAIL when the reply list has the wrong size; all others are untouched |
| `BatchStages.PlanGroups` | mooncake-store/src/client_service.cpp:2245-2269 | The planning loop sorts every operation into the groups its plan names and counts its calls |
| `BatchStages.CallMaster` | mooncake-store/src/client_service.cpp:2324-2329 | The six calls go out in order for the non-empty groups only; afterwards every counter is zero and every error is the latest one of the operation's own calls |
| `BatchStages.FinalizeBatchPut` | mooncake-store/src/client_service.cpp:2184-2378 | Every operation is terminal, no finalize action is outstanding (so the unfinished-actions branches are dead), the calls are exactly those planned, and each operation ends as its own plan and replies say |
| `PutTheorems.PendingCounts` | mooncake-store/src/client_service.cpp:2062-2182 | For every operation still pending after submit and wait, successes plus failures equal the allocated replicas per type and the successes are the replicas written |
| `PutTheorems.CountsAgree` | mooncake-store/src/client_service.cpp:2062-2182 | The batch and the single put reach the same counters; only the first error may differ |
| `PutTheorems.BatchAgreesWithPut` | mooncake-store/src/client_service.cpp:2511-2550 | Per key, for all allocations, outcomes and replies: batch and single put agree on success if and only if the answer that decides a started operation is not OBJECT_ALREADY_EXISTS and a flexible policy without NoF replicas was not met by NoF replicas alone with its finalize calls answered well |
| `PutTheorems.ExistingIff` | mooncake-store/src/client_service.cpp:2335-2378 | An operation ends with OBJECT_ALREADY_EXISTS exactly when its latest finalize answer says so after sufficient transfers, or its first recorded transfer error does |
| `PutTheorems.ExistingExample` | mooncake-store/src/client_service.cpp:2511-2550 | A concrete put that fails alone and is reported as stored by the batch |
| `PutTheorems.PolicyGapExample` | mooncake-store/src/client_service.cpp:1975-1990 | A concrete allocation that the batch refuses and the single put accepts |
| `PutTheorems.FirstErrorIs` | mooncake-store/src/client_service.cpp:2073-2175 | The first error the batch records is TRANSFER_FAIL if any submission failed, else the first failing write's in replica order |
| `PutTheorems.CallsAgreeWithPut` | mooncake-store/src/client_service.cpp:2184-2330 | Per key the batch plans the End and Revoke types the single put calls, except in three cases stated outright: a put whose End fails sends no Revoke, a put granted no replica revokes everything while the batch calls nothing, and in the policy gap the batch revokes everything while the put ends the NoF replicas and revokes the memory ones |
| `PutTheorems.FirstErrorsAgreeIff` | mooncake-store/src/client_service.cpp:2073-2175 | The first recorded error is the same if and only if no submission failed or the first failing write reports TRANSFER_FAIL |
| `PutTheorems.SuccessMeansWritten` | mooncake-store/src/client_service.cpp:254-312 | In a non-flexible mode a successful operation has every memory and NoF replica written |
| `PutTheorems.SingleReplicasSafe` | mooncake-store/src/client_service.cpp:254-312 | In the flexible mode, with at most one replica per type, an End names only replicas that were written |
| `PutTheorems.TwoReplicasUnsafe` | mooncake-store/src/client_service.cpp:254-312 | In the flexible mode two replicas of one type, one written and one not, are both vouched for by the End |
| `PutTheorems.FlexibleEndsOnlyWrittenIff` | mooncake-store/src/client_service.cpp:254-312 | An End of the flexible mode names only written replicas for every outcome if and only if at most one replica of each type was allocated |
| `PutTheorems.PlansCover` | mooncake-store/src/client_service.cpp:2245-2269 | Every unfinished operation that holds replicas is planned into calls whose types are disjoint and together cover MEMORY and NOF_SSD |
| `PutTheorems.CalledIffPlanned` | mooncake-store/src/client_service.cpp:2271-2329 | An operation is named in a call of the batch exactly when its plan asks for that call |
| `PutTheorems.BookedErrorIsOwn` | mooncake-store/src/client_service.cpp:2271-2329 | The error booked for an operation after all six calls is the latest error among its own calls |
| `PutTheorems.EveryKeyAgrees` | mooncake-store/src/client_service.cpp:2652-2694 | In a batch of any size every key's result agrees with a single put of that key given the replies to the key's own calls, under the exact condition above |
| `PutTheorems.OperationMeans` | mooncake-store/src/client_service.cpp:2184-2378 | What an operation ends and revokes, and its result, in terms of the replicas granted and the writes, for every mode |
| `PutTheorems.EveryKeyStored` | mooncake-store/src/client_service.cpp:2652-2694 | In a batch of any size a key that was granted replicas ends up as its replicas and writes say unless one of its own calls books an error, and is named in exactly the calls that end and revoke its types |
| `PutTheorems.ConcludedRefuses` | mooncake-store/src/client_service.cpp:1967-1973 | A key whose start failed gets the error of its start, or counts as stored if the object exists |
| `PutTheorems.CollectResults` | mooncake-store/src/client_service.cpp:2511-2550 | Every operation yields one result; OBJECT_ALREADY_EXISTS counts as stored |
| `PutTheorems.RevokesExactly` | mooncake-store/src/client_service.cpp:2245-2253 | When every unfinished operation has failed, finalize makes one call, a revoke of everything for exactly the operations that hold replicas in order, or none if there are none |
| `PutTheorems.BatchPut` | mooncake-store/src/client_service.cpp:2652-2694 | The staged pipeline returns for every key, in a batch of any size: the error of its start, or, for a key that was granted replicas, success exactly when the allocation is the one asked for, its writes suffice for the mode and none of its own calls books an error, and else the error of the allocation, of the writes or of the call, OBJECT_ALREADY_EXISTS counting as stored; without a submitter or with a wrong-sized response every key fails, and the only call is one revoke of everything for exactly the operations that hold replicas, of which a wrong-sized response leaves none |
| `ShmMapping.MapRangeExact` | mooncake-store/src/real_client.cpp:352-370 | A range is translated exactly when it lies in the dummy side of the mapping; it lands at the same offset of the real side, inside the mapped buffer, though all arithmetic is modulo 2^64 |
| `ShmMapping.ScanExact` | mooncake-store/src/real_client.cpp:389-400 | The scan fails exactly when every mapping refuses, and otherwise returns one mapping's translation |
| `ShmMapping.OneMappingTakes` | mooncake-store/src/real_client.cpp:372-387 | With disjoint mappings a non-empty range is taken by one mapping at most |
| `ShmMapping.AnyHitIsScan` | mooncake-store/src/real_client.cpp:372-387 | With disjoint mappings any mapping that takes a non-empty range gives the scan's answer, so the last-hit shortcut changes nothing |
| `ShmMapping.HitDiffersIff` | mooncake-store/src/real_client.cpp:372-400 | With disjoint mappings, a mapping that takes a range translates it differently from the scan if and only if the range is empty and lies on the border of that mapping and an earlier one whose buffers do not meet in the same way |
| `ShmMapping.WalkDiffersIff` | mooncake-store/src/real_client.cpp:372-427 | Over any list of buffers, the walk with its last-hit shortcut differs from the plain scan at a buffer if and only if the buffer is empty, the mapping hit last takes it and an earlier one on the other side of such a border takes it first |
| `ShmMapping.WalkIsScan` | mooncake-store/src/real_client.cpp:372-427 | For disjoint mappings the walk gives the scan's pointer for every non-empty buffer of any list |
| `ShmMapping.MapBuffer` | mooncake-store/src/real_client.cpp:372-387 | Last hit first, then the first mapping that takes the range: pointer and remembered mapping are exactly those; fails exactly when the plain scan does |
| `ShmMapping.MapAddrs` | mooncake-store/src/real_client.cpp:402-427 | Succeeds exactly when sizes match and the scan finds every buffer; the pointers are exactly those of the walk with its shortcut over the whole list, and each buffer lands inside one mapping |
| `ShmMapping.EmptyBufferExample` | mooncake-store/src/real_client.cpp:372-387 | A concrete list, a buffer inside one mapping and then an empty one on its border, for which walk and scan differ |
| `ShmMapping.ToDummy` | mooncake-store/src/real_client.cpp:2699-2712 | The loop, modulo 2^64, returns the dummy address of the first mapping whose buffer holds the pointer, and fails if and only if the pointer lies in no buffer |
| `ShmMapping.RoundTrip` | mooncake-store/src/real_client.cpp:2136-2142 | For disjoint mappings, translating a real address to its dummy address and back gives the real address, for every length that fits |
| `ShmMapping.BackAgain` | mooncake-store/src/real_client.cpp:2699-2709 | For disjoint buffers, whatever the forward translation returns is translated back to the same dummy address |
| `RangedRead.PrepareRow` | mooncake-store/src/real_client.cpp:228-258 | Flags are exactly the valid fragments and the running maximum is exactly the largest end of a valid fragment |
| `RangedRead.PrepareBuffer` | mooncake-store/src/real_client.cpp:208-261 | Result shape, flags and required size of one buffer, for any ragged nesting |
| `RangedRead.Prepare` | mooncake-store/src/real_client.cpp:186-264 | For any nesting: top-level validity, the result shape, the valid fragments, the required sizes (each the exact largest end) and whether anything is valid |
| `RangedRead.ExecuteRead` | mooncake-store/src/real_client.cpp:3159-3320 | A read stays inside the object, reports its size or the error of the failing stage, and changes just its destination bytes |
| `RangedRead.Capacity` | mooncake-store/src/real_client.cpp:3114-3146 | Exactly the room from an address to the end of the first registered area that holds it, else of the local one, and zero if none does |
| `RangedRead.Resolve` | mooncake-store/src/real_client.cpp:3445-3456 | Metadata comes from the cache or from one query; a key is never asked for twice |
| `RangedRead.ServeRanges` | mooncake-store/src/real_client.cpp:3438-3499 | The results have the validated shape and the specified cell values, memory is the old memory with the fragments' writes applied in order, each key is queried at most once |
| `RangedRead.GetIntoRanges` | mooncake-store/src/real_client.cpp:3355-3500 | Served from exactly the buffers, metadata, objects and replies of the call, with each buffer's capacity the room left in the registered area that holds it; a request of the wrong top-level shape reads nothing; what each fragment is answered is `GetIntoRangesCells` |
| `RangedReadCells.GetIntoRangesCells` | mooncake-store/src/real_client.cpp:3355-3500 | The answer for every fragment of a served request: read exactly if the lists around it agree, its end is an address, it fits the room left in the first registered area that holds its buffer (else the local one), its key has metadata, the source range lies in the object, and every step for the kind of replica succeeds; otherwise the error of the first condition that fails |
| `RangedReadCells.ServedShape` | mooncake-store/src/real_client.cpp:3355-3500 | The result has one row per key and one cell per fragment, or one cell where the lists of a buffer disagree |
| `RangedReadCells.RoomIs` | mooncake-store/src/real_client.cpp:3114-3146 | The room behind an address is what is left of the first registered area that holds it, else of the local one, else nothing |
| `RangedReadCells.RefusedUntouched` | mooncake-store/src/real_client.cpp:3159-3320 | A fragment that fails before its read reaches the destination, by validation, metadata, kind or a temporary buffer, leaves its bytes as they were |
| `RangedReadCells.ReadExample` | mooncake-store/src/real_client.cpp:3355-3500 | A concrete request of one fragment in one registered buffer: it is read |
| `RangedReadTheorems.WritesStayInside` | mooncake-store/src/real_client.cpp:3458-3475 | Every write is exactly its fragment's destination and lies inside the buffer's capacity |
| `RangedReadTheorems.ReadsStayInside` | mooncake-store/src/real_client.cpp:3174-3178 | A successful fragment reads inside its object and reports exactly its size |
| `RangedReadTheorems.RequestCaused` | mooncake-store/src/real_client.cpp:3438-3499 | Every write of a request belongs to an attempted fragment in its shape |
| `RangedReadTheorems.RequestOrdered` | mooncake-store/src/real_client.cpp:3438-3499 | Writes happen in execution order, no fragment twice |
| `RangedReadTheorems.OutsideUnchanged` | mooncake-store/src/real_client.cpp:3355-3500 | Bytes outside every valid fragment's destination keep their value |
| `RangedReadTheorems.FragmentsLand` | mooncake-store/src/real_client.cpp:3355-3500 | With disjoint destinations every successful fragment holds object[src..src+size) |
| `RangedReadTheorems.ServedFragments` | mooncake-store/src/real_client.cpp:3355-3500 | After a served request with disjoint destinations every fragment reported as read holds its bytes of the key's object |
| `RangedReadTheorems.ServedElsewhere` | mooncake-store/src/real_client.cpp:3355-3500 | After a served request every byte in no valid fragment is as it was |
| `RangedReadTheorems.WritesInAreas` | mooncake-store/src/real_client.cpp:3114-3146 | Every write of the call lies inside one registered area, the one that holds its buffer |
| `RangedReadTheorems.GetIntoRangesShm` | mooncake-store/src/real_client.cpp:4344-4403 | Reads only for a well-formed request of a known client with some valid fragment and every buffer translatable, and then serves it from exactly the metadata, objects and replies of the call in the translated buffers; otherwise memory is unchanged and every cell of the validated shape is an error |
| `RangedReadCells.ShmCells` | mooncake-store/src/real_client.cpp:4344-4403 | The answer for every fragment of a served shared-memory request: read exactly if the lists agree, its end is an address, its key has metadata, the source range lies in the object and every step of reading succeeds; otherwise the error of the first that fails |
| `RangedReadCells.ShmServes` | mooncake-store/src/real_client.cpp:4377-4395 | No reason to refuse is left once some fragment has lists that agree and an end that is an address, and every buffer is mapped as far as its fragments need |
| `RangedReadTheorems.TranslateBuffers` | mooncake-store/src/real_client.cpp:4377-4395 | Refuses exactly for an unknown client, nothing valid or an untranslatable buffer; otherwise every buffer lies in one mapping |
| `RangedReadTheorems.FillWithError` | mooncake-store/src/real_client.cpp:266-277 | Same shape, every cell the error |
| `RangedReadTheorems.ShmRejectsNoValidFragment` | mooncake-store/src/real_client.cpp:3463-3475 | In the shared-memory variant the capacity check rejects no valid fragment |
| `RangedReadTheorems.ShmWritesMapped` | mooncake-store/src/real_client.cpp:4367-4402 | Every byte written lies in one of the client's mapped segments |
| `RangedReadTheorems.DummyDisjointMeansDisjoint` | mooncake-store/src/real_client.cpp:4377-4395 | Destinations that are disjoint in the client's addresses are disjoint in memory if the mapped buffers are |
| `RangedReadTheorems.ShmFragments` | mooncake-store/src/real_client.cpp:4344-4403 | For a client whose destinations are disjoint, every fragment it is told was read holds the store's bytes of the key |
| `RangedReadTheorems.ShmCapacityTight` | mooncake-store/src/real_client.cpp:227-260 | A non-zero required size is the end of some valid fragment |
| `SegmentSpec.CollideExact` | mooncake-store/src/client_service.cpp:2880-2893 | The overlap test on wrapped ends is exact for real ranges |
| `SegmentSpec.InvKept` | mooncake-store/src/client_service.cpp:2820-3050 | Every action of every thread keeps: an id is in one client map at most, mounted segments are disjoint, timers and callbacks belong to graceful unmounts, exactly the booked memory is held, memory behind a live id is that of its segment, and after teardown has emptied the maps no id is live |
| `SegmentSpec.ReachableInv` | mooncake-store/src/client_service.cpp:2820-3050 | The invariant holds in every state of every interleaving of mounts, unmounts, timer polls, callbacks and teardown |
| `SegmentSpec.DisjointKept` | mooncake-store/src/client_service.cpp:2868-2929 | Mounted segments stay pairwise disjoint |
| `SegmentSpec.MemoryKept` | mooncake-store/src/real_client.cpp:1275-1337 | Exactly the booked memory is held, each piece once, after every action |
| `SegmentSpec.PollsAreQueries` | mooncake-store/src/client_service.cpp:2982-3004 | The poll counter is the number of status queries made |
| `SegmentSpec.AtMostFourQueries` | mooncake-store/src/client_service.cpp:2970-3050 | Over any run the master is asked at most four times about one graceful unmount |
| `SegmentSpec.ReleasedAfterUnmount` | mooncake-store/src/real_client.cpp:1376-1411 | Whatever step releases memory, teardown's included, outside a rollback its id has left both maps before that step |
| `SegmentSpec.GoneForGood` | mooncake-store/src/client_service.cpp:2820-2845 | An id that left both maps never comes back |
| `SegmentSpec.AcquiredOnce` | mooncake-store/src/real_client.cpp:1221-1246 | Every piece of memory is acquired exactly once |
| `SegmentSpec.AllReleased` | mooncake-store/src/real_client.cpp:1126-1129 | At the end of teardown every piece of memory has been released exactly once and no id is in a map |
| `SegmentSpec.UnbackedIffStranded` | mooncake-store/src/real_client.cpp:1250-1260 | In every state of every run, a live id lacks its memory if and only if its own mount call rolled it back, the unmount of that rollback was answered with a failure, and the memory was then released |
| `SegmentSpec.StrandedExample` | mooncake-store/src/real_client.cpp:1250-1260 | A concrete rollback that leaves an id mounted over released memory |
| `SegmentSpec.LeadsKeepsInv` | mooncake-store/src/client_service.cpp:2820-3050 | Any possible list of actions, such as those of one call, keeps the invariant |
| `SegmentSpec.LeadsIsRun` | mooncake-store/src/client_service.cpp:2820-3050 | Actions that lead anywhere from the start form a run, so the theorems about runs apply to the calls that made them |
| `SegmentClient.Client.Overlaps` | mooncake-store/src/client_service.cpp:2880-2893 | Exactly whether some mounted segment overlaps the range |
| `SegmentClient.Client.MountSegmentAndGetId` | mooncake-store/src/client_service.cpp:2868-2929 | Exact success condition; on success the map gains just the new segment, on failure it is unchanged |
| `SegmentClient.Client.MountOne` | mooncake-store/src/real_client.cpp:1225-1238 | Acquire, mount, give back on failure: one mount action of the state machine, with its exact success condition |
| `SegmentClient.Client.UnmountSegmentById` | mooncake-store/src/client_service.cpp:2931-2962 | Succeeds if and only if the id is mounted, the master agrees and, at once, the transfer engine does too; else INVALID_PARAMS, the master's error or INTERNAL_ERROR, and nothing changes; on success, at once, the id leaves the map and its record is to be erased; gracefully, it moves to the graceful map with its cleanup stored and three retries queued |
| `SegmentClient.Client.OnGracefulUnmountTimer` | mooncake-store/src/client_service.cpp:2982-3050 | Two critical sections with the status query between them: nothing for a segment that is gone, else one query and then removal with the cleanup run, another retry, or giving up; the tables and the book afterwards are exact |
| `SegmentClient.FiredBookIs` | mooncake-store/src/client_service.cpp:2982-3050 | A timer task leaves nothing half done, asks once if there is something to ask about, releases the memory exactly if the segment is gone and the cleanup is that of its table, and is queued again exactly while retries are left |
| `SegmentClient.Client.RunCallback` | mooncake-store/src/real_client.cpp:1275-1290 | The callback of a finished graceful unmount releases the record of its own table if it is still there |
| `SegmentClient.Client.MountChunks` | mooncake-store/src/real_client.cpp:1221-1246 | Cuts the total into full chunks and a remainder at growing offsets, mounts exactly the chunks accepted in their turn, and stops at the first that is not; terminates |
| `SegmentChunks.StopsAtEndIff` | mooncake-store/src/real_client.cpp:1221-1246 | The loop reaches the end if and only if every chunk the total needs is accepted next to the segments and the chunks before it |
| `SegmentChunks.AllAcceptedIff` | mooncake-store/src/real_client.cpp:1221-1246 | Every chunk is accepted if and only if chunk by chunk, a full one or the rest of the total, there is memory with an end that is an address, of at most max_mr_size, registered and mounted by the master, that shares no byte with a mounted segment or an earlier chunk |
| `SegmentChunks.RemainingIs` | mooncake-store/src/real_client.cpp:1221-1246 | What is left when chunk i is due is the total less i full chunks, or nothing |
| `SegmentChunks.MountedAfterGains` | mooncake-store/src/real_client.cpp:1225-1242 | After the loop the map has gained exactly the new ids, each with its own chunk |
| `SegmentClient.Client.RollBack` | mooncake-store/src/real_client.cpp:1250-1263 | Every chunk acquired is released, and exactly those whose unmount was granted leave the map |
| `SegmentChunks.RolledMapIs` | mooncake-store/src/real_client.cpp:1250-1260 | Rolling back the first chunks takes exactly those out of the map whose unmount the master and the transfer engine grant |
| `SegmentChunks.GainedThenDropped` | mooncake-store/src/real_client.cpp:1221-1263 | After a failed call old segments are as they were and a chunk is in the map if and only if its rollback was refused the unmount |
| `SegmentClient.Client.RecordAll` | mooncake-store/src/real_client.cpp:1265-1272 | Every mounted chunk becomes a record |
| `SegmentClient.Client.MountSegment` | mooncake-store/src/real_client.cpp:1166-1273 | Succeeds if and only if the client is open, a page is at most max_mr_size, the file opened, offset + size is at most its length, the offset is page-aligned and every chunk is accepted in its turn; on success the chunks tile the requested range end to end at page-aligned offsets, each at most max_mr_size, are recorded, and exactly they are new in the map with their segments; on failure every chunk is released, no record is added, old entries are unchanged, and a new id is in the map if and only if its rollback unmount was refused |
| `SegmentClient.Client.AllocateAndMountSegment` | mooncake-store/src/real_client.cpp:1415-1516 | Succeeds if and only if the client is open, the size is not zero, a page is at most max_mr_size, a slab at most max_mr_size in whole pages, rounding up does not overflow and every chunk is accepted in its turn; on success slab-multiple chunks add up to the least slab multiple that holds the size, which is reported, and exactly they are new in the map; on failure the same as for mountSegment |
| `SegmentChunks.CutTiles` | mooncake-store/src/real_client.cpp:1215-1246 | Chunks cut at a page multiple lie end to end at page-aligned file offsets from the first byte of the range to the last |
| `SegmentChunks.CutSlabs` | mooncake-store/src/real_client.cpp:1442-1488 | Chunks cut at a slab multiple from a slab multiple are slab multiples, the last one too |
| `SegmentClient.Client.UnmountSegments` | mooncake-store/src/real_client.cpp:1339-1413 | No error if and only if the client is open and every id of the list can be read, has a record in the table, is mounted, named once and let go; else the exact first error; exactly the ids let go leave the map; at once they lose their memory, gracefully they are in the graceful map with the cleanup of their table and a timer; everything else is untouched |
| `SegmentChunks.GoesIff` | mooncake-store/src/real_client.cpp:1376-1404 | An id leaves the map if and only if it was mounted and some mention of it in the list is granted |
| `SegmentChunks.NoErrorIff` | mooncake-store/src/real_client.cpp:1376-1404 | The loop reports no error if and only if every id is mounted, named once and let go |
| `SegmentChunks.FirstErrorIs` | mooncake-store/src/real_client.cpp:1376-1404 | The first error is that of the first id not let go: INVALID_PARAMS if it is not mounted or named before, else the master's error, else INTERNAL_ERROR from the transfer engine |
| `SegmentChunks.ChosenIs` | mooncake-store/src/real_client.cpp:1354-1373 | The ids taken on are readable and recorded ones of the list, and all of them in order if none is missing |
| `SegmentChunks.ChosenHas` | mooncake-store/src/real_client.cpp:1354-1373 | Every readable id of the list that has a record is taken on |
| `SegmentClient.Client.ReleaseTaken` | mooncake-store/src/real_client.cpp:1406-1410 | Exactly the records taken out are released |
| `SegmentClient.Client.Teardown` | mooncake-store/src/client_service.cpp:365-446 | First both maps are emptied, then the stored cleanups run, then both tables are released: a list of actions that starts with the closing of the maps and ends with no memory left |
| `SegmentClient.Client.ReleaseAll` | mooncake-store/src/real_client.cpp:1292-1308 | No record of the table is left; each release is an action of the teardown |
| `SegmentLife.Serve` | mooncake-store/src/real_client.cpp:1166-1595 | Every complete call returns the result, and makes of the tables what, its own contract says; it starts and ends with nothing half done and hands out only ids of its own request |
| `SegmentLife.DoneSettles` | mooncake-store/src/real_client.cpp:1166-1595 | Whatever a call did according to its result, it leaves nothing half done and adds only ids of its own request |
| `SegmentLife.Lifetime` | mooncake-store/src/real_client.cpp:1097-1129 | Construction, any calls in any order, teardown: each request gets the result of its call on the tables the one before it left; the actions are a run of the state machine that passes through these tables; teardown starts with the closing of the maps; nothing is released that is not held, and every piece of memory is released exactly once |
| `MemoryLocation.GetMemoryLocation` | mooncake-transfer-engine/src/memory_location.cpp:61-101 | The entries tile [start, start+len), non-empty unless the range is; the location of every byte is "cpu:" followed by decimal digits that read back as the node of its own page (of the first page in a first-page-only scan), and "*" if the page has none; an entry starts at a page exactly when that page's status differs from the one before; a failed query or a first-page-only scan gives one entry |
| `MemoryLocation.NameMeans` | mooncake-transfer-engine/src/memory_location.cpp:22-25 | The name of a node is "cpu:" and digits that read back as the node, or "*" exactly for a negative status |
| `MemoryLocation.SameNameIff` | mooncake-transfer-engine/src/memory_location.cpp:22-25 | Two names are equal if and only if the nodes are, or both statuses are negative |
| `MemoryLocation.NoPagesIff` | mooncake-transfer-engine/src/memory_location.cpp:61-75 | The machine's page count is zero if and only if the range is empty and starts a page or reaches from the first page into the last; otherwise it is the number of pages touched |
| `MemoryLocation.NoPagesExample` | mooncake-transfer-engine/src/memory_location.cpp:61-75 | An empty range at the start of a page and a range from the first page into the last, for which no page is counted |
| `MemoryLocation.AllLabelled` | mooncake-transfer-engine/src/memory_location.cpp:81-98 | Every byte of every entry has the label of its page |
| `MemoryLocation.AllCut` | mooncake-transfer-engine/src/memory_location.cpp:81-98 | Entries start exactly where the page status changes |
| `SegmentsLocation.BuildSegmentsLocation` | mooncake-transfer-engine/src/memory_location.cpp:108-117 | The append loop prints the specified text |
| `SegmentsLocation.ParseSegmentsLocation` | mooncake-transfer-engine/src/memory_location.cpp:119-148 | The token loop computes the specified parse, including empty tokens, signs, white space, trailing text and out-of-range numbers |
| `SegmentsLocation.ParseNodes` | mooncake-transfer-engine/src/memory_location.cpp:131-144 | The position loop agrees with the recursive splitting at commas |
| `SegmentsLocation.RoundTrip` | mooncake-transfer-engine/src/memory_location.cpp:108-148 | Parsing what was printed gives back the page size and the nodes, for every page size and every node list but the empty one, which is refused |
| `SegmentsLocation.ParsedIsPrintable` | mooncake-transfer-engine/src/memory_location.cpp:108-148 | Whatever text is accepted, printing the result and parsing again gives the same result |
| `SegmentsParsing.ParsedReads` | mooncake-transfer-engine/src/memory_location.cpp:119-148 | A name with the prefix is parsed if and only if there is a page size before its first colon and at least one node after it, all tokens being numbers, and then to just these |
| `SegmentsParsing.OnlyPrefixed` | mooncake-transfer-engine/src/memory_location.cpp:119-128 | No name without the prefix and a colon after it is parsed |
| `SegmentsParsing.NodesRead` | mooncake-transfer-engine/src/memory_location.cpp:131-144 | A comma-separated list is read if and only if every non-empty token starts with a number that fits an int; empty tokens are skipped and the others give their numbers in order |
| `SegmentsParsing.NumbersRead` | mooncake-transfer-engine/src/memory_location.cpp:119-148 | White space, a sign, digits and any other text: the number of the digits with its sign if it fits an int, and modulo 2^64 as an unsigned one |
| `SegmentsParsing.NumberNeeded` | mooncake-transfer-engine/src/memory_location.cpp:119-148 | Any other text has no number |
| `SegmentsLocation.PagesWholeIff` | mooncake-transfer-engine/src/memory_location.cpp:150-159 | No page is split between two nodes if and only if there is one node or the region size is a number of pages |
| `SegmentsLocation.SplitPage` | mooncake-transfer-engine/src/memory_location.cpp:150-159 | With several nodes and a region size that is not a number of pages, the page across the first border belongs to two nodes |
| `SegmentsLocation.ClampedIff` | mooncake-transfer-engine/src/memory_location.cpp:155-157 | The clamp acts exactly on the tail bytes of a length that the node count does not divide |
| `SegmentsLocation.ResolveMeans` | mooncake-transfer-engine/src/memory_location.cpp:150-159 | An offset in region r resolves to node r, the last region taking in the tail; without nodes, or with fewer bytes than nodes, the location is "*" |
| `SegmentsLocation.SetupLocated` | mooncake-store/src/real_client.cpp:851-858 | With the length the client sets up, the registered name resolves every offset to the node of its region; regions are equal and page-aligned, nothing is clamped and no page is split |
| `BlockCoalescing.GroupContiguous` | vllm-connector/mooncake_store_connector.py:67-76 | The groups flatten to the ids, each is a run of consecutive ids and none could be longer |
| `BlockCoalescing.GroupingUnique` | vllm-connector/mooncake_store_connector.py:67-76 | Keeping the ids and being maximal determines the grouping |
| `BlockTransfer.BlockBufferVectors` | vllm-connector/mooncake_store_connector.py:557-583 | The buffers hold exactly the slots of the block list, in order and plane by plane, and there is one buffer per maximal run of consecutive ids and plane: for group g of the list, buffer g starts at the first block of the group in the first plane and, with split planes, buffer g after those starts at the same block in the second |
| `BlockTransfer.GatherIsBlocks` | vllm-connector/mooncake_store_connector.py:557-583 | Gathering through the coalesced buffers is copying the listed blocks one by one |
| `BlockTransfer.SavedOrder` | vllm-connector/mooncake_store_connector.py:557-583 | What is saved is the listed blocks of the first plane in the order of the list, then those of the second |
| `BlockTransfer.ScatterPlaces` | vllm-connector/mooncake_store_connector.py:557-583 | Scattering into the buffers of distinct slots puts the i-th block of the payload at the i-th slot and changes nothing else |
| `BlockTransfer.SaveLoad` | vllm-connector/mooncake_store_connector.py:557-583 | Data saved from blocks a and loaded into distinct blocks b puts block a[i] at b[i] in every plane, however the two lists are fragmented, and leaves all other blocks alone |

## Left out

- Red-black tree rebalancing: the trees are sorted sequences with the same least-key, predecessor and insert operations.
- GPU pointer probing, opts parsing, the global list of domains and a destroy that races another call.
- The MACA variant's extra device selection while a context is retained.
- Which finalize policy follows from a replica configuration: the write mode is an arbitrary function of the two replica counts, as its definition is not part of this model.
- Disk replicas beyond their exclusion from the counters, batch upsert, the failure-context strings, the NoF boundary log.
- The preference to allocate all replicas of a batch on one node.
- Repeated keys in one batch: the stages work per position, and the per-key slices map of the callers is not modelled.
- The hot cache, whole-object reads into buffers, nested dummy address lists and the missing-client exits of the read calls.
- Leases: a cached metadata entry is assumed to equal what a query would return.
- Registration state of the transfer engine: a failed master mount leaves it registered, and only the client maps are modelled.
- UUID freshness and memory whose end is an address are assumptions of the mount model (`FreshIds`, `Plausible`); a chunk whose end is none counts as unavailable. An id is unmounted by others only after its mount call has recorded it.
- Unmounting by buffer address, which only looks up the id first; in teardown its failures are logged and the maps are cleared all the same.
- Teardown is for the sole owner of a client in which no other call is running (`Quiet`).
- The two record tables are one table with a tag; the file descriptor and the protocol string of a record are not modelled.
- MemoryLocation.GetMemoryLocation: requires that a query answered well was for at least one page, since the code otherwise reads the status of a page it never asked about (`NoPagesIff` says when), and a range that does not wrap around; device memory is not modelled.
- The slot mapping of the connector's request metadata, its load path and its marker files.
- HTTP metadata servers, Python bindings, IPC, environment parsing, metrics and logging.
