# Verified models of Linux user-space headers

The repository ships kernel headers for user space. Their behaviour is in two places: macros and
inline functions that compute something, and protocols and memory layouts that header comments fix.
This project models the parts where that behaviour is intricate and proves what they are for.

- `IoRequests`, `IoRequestRuns`, `IoRequestBuffer`: the ACRN I/O request slots that the hypervisor,
  the HSM and its clients drive round FREE, PENDING, PROCESSING, COMPLETE. Every interleaving of their
  steps over any number of slots is a run.
- `Relocation`, `Overlaps`, `ExecBuffer`, `CommandSubmit`, `SubmitRuns`: command-stream relocation with presumed addresses in
  i915, msm and etnaviv. The path that skips is compared with full relocation over whole runs of
  moves, rewrites and submits.
- `TextureLru`, `TextureClients`: the shared texture LRU of i810 (a doubly linked ring in an array)
  and the clients that skip the walk while the global age is unchanged.
- `Tiling`, `TFormat`, `Swizzle`, `Sand`: pixel tilings as bijections between positions and addresses.
- `Bits`, `BitFields`: shifts and bitwise operators on naturals, and the theorems about words cut
  into fields that `FormatModifiers`, `TilingFlags`, `AOut` and `Ioctl` are instances of.
- `Topology`, `FormatBlob`, `EventStream`, `XvmcLocks`: packed layouts and streams read back by the
  formulas that the headers give.

`Bytes` holds little-endian numbers, `Options` optional values. Run `dafny verify dfyconfig.toml` to check everything.

## How the model reads the headers

- Addresses and words are naturals. Where the C type cuts a value off, the cut is written out: masks,
  the 56-bit payload of a modifier, the shift of a field value in an n-bit word, the conversion to `int` in
  `fourcc_mod_broadcom_param`, the width of a relocated word.
- Multi-byte fields are little-endian.
- One step of the ACRN protocol is one line of the lifecycle drawing. The upcall to the Service VM is
  no step of its own, since a scan may happen at any time. `Inform` is the HSM's notification, or the
  hypervisor's own poll when `completion_polling` is set.
- A vCPU may use any FREE slot, provided it has no request under way. This covers every way of giving
  slots to vCPUs.
- A msm or etnaviv submit has its own table of buffers and its own streams. Several streams may lie in
  one buffer; their relocations are applied in order. An etnaviv stream that user space passes by
  pointer is a buffer that is written before each submit.
- In the T format rows are counted upwards from the bottom left, where memory starts.
- The two outcomes that no header describes further, EINVAL for unsorted relocations and a softpin
  submit that cannot be mapped, leave the streams unchanged.

Comments and code disagree in three places, and the model follows the code. The comment above
`fourcc_mod_broadcom_code` (include/drm/drm_fourcc.h:793-796) gives the type 32 bits and the parameter
24; the macros use 8 and 48. The NVIDIA table ends with reserved bits "55:25" (line 730), but bit 25
belongs to the compression field. `i810_drm.h` line 201 lets driver ioctls end at 0x79, `drm.h` at 0x9f.

Some promises turn out to need a condition, which is proved exactly.

- Leaving a whole list alone under `I915_EXEC_NO_RELOC` gives the right bytes wherever the kernel has
  the objects, if and only if the caller's relocation entries agree with the caller's own `offset`
  fields (`ExecBuffer.NoRelocExact`); for the whole outcome the contract of the header is necessary
  and sufficient (`ExecBuffer.NoRelocContractExact`). The kernel's bookkeeping does not ensure it when
  a buffer sits out a submit (`ExecBuffer.LeftOutObjectGoesStale`), closed lists do
  (`ExecBuffer.ClosedListsAreSafe`).
- Passing a returned address back in `presumed` is not enough in msm and etnaviv: an address may still
  be valid while a stream that was left out holds the word for an older one
  (`SubmitRuns.LeftOutStreamGoesStale`). A sorted submit may skip, wherever the buffers are, if and only
  if its streams show the words for the addresses it passes and, where relocations for different
  targets overlap, the byte that is written over is the same for every address
  (`CommandSubmit.SubmitExact`). Without overlaps this says that the streams hold the presumed words
  (`CommandSubmit.DisjointExact`); for words `addr + offset` that hold them, overlapping relocations
  must have the same target (`CommandSubmit.SumsExact`).
- `fourcc_mod_broadcom_param` returns its parameter if and only if that is below 2^31
  (`FormatModifiers.BroadcomParamReadBack`).
- Setting a field with `AMD_FMT_MOD_SET` keeps all other bits if and only if the part of the value that
  the 64-bit shift leaves fits the mask (`BitFields.PutKeepsOthers`).
- Sorted relocations do not overlap if and only if neighbours are at least four bytes apart
  (`CommandSubmit.SortedApart`); the headers ask only for increasing offsets.

## Model

| member | source | states |
|---|---|---|
| IoRequests.InvStep | include/linux/acrn.h:102-147 | every enabled step of any agent on any slot keeps the invariant that ties flags, memory and history of each slot together |
| IoRequests.StepAdvances | include/linux/acrn.h:112-143 | a step allowed by its local guard is the next one of its slot's trip, in every coherent state |
| IoRequests.EnabledExact | include/linux/acrn.h:112-143 | the steps that can be taken are exactly the next ones of the trip: anything may be filled in while no slot carries the vCPU, and the assigned client may return anything for a read and the filled-in value for a write |
| IoRequests.AnyReadResult | include/linux/acrn.h:127-129 | a client that handles a read can return every value, and the slot then holds it |
| IoRequests.TripsInOrder | include/linux/acrn.h:112-143 | in every run, the events of each slot are whole trips in the order (a) to (f), each in its state, with the vCPU paused from before (a) to (e) and every agent seeing the request of this trip |
| IoRequests.ConsumedIsProduced | include/linux/acrn.h:127-139 | what is consumed at (f) is what the assigned client produced for this very request, never a leftover of an earlier trip |
| IoRequestRuns.OnlyOwnerWrites | include/linux/acrn.h:102-107 | only the owner of a slot changes its memory and all steps but the HSM's notification are the owner's; the state moves only to its successor, the request changes only when filled in, its value also when handled |
| IoRequestRuns.IssuedIsFreedPlusOne | include/linux/acrn.h:141-143 | in every reachable state a vCPU has issued as many requests as were freed, plus one exactly while one is in flight |
| IoRequestRuns.StepLowersRank | include/linux/acrn.h:112-139 | every step except a new request lowers the work left by one |
| IoRequestRuns.RunLength | include/linux/acrn.h:112-139 | length of a run plus work left equals work at the start plus eleven for each request begun |
| IoRequestRuns.BusySlotCanMove | include/linux/acrn.h:112-139 | a slot that is not idle always has an enabled step |
| IoRequestRuns.Drains | include/linux/acrn.h:112-139 | a run that cannot go on without a new request has all slots FREE and idle |
| IoRequestRuns.ReachableDrains | include/linux/acrn.h:112-139 | from every reachable state, a run without a new request has at most ten steps for each slot and extends to one that leaves every slot FREE and idle |
| IoRequestRuns.RunningIsNotEnough | include/linux/acrn.h:134-143 | a vCPU can run again while its request is still in COMPLETE, so running alone does not entitle it to a second request |
| IoRequestBuffer.RequestBuffer.constructor | include/linux/acrn.h:164-169 | sixteen idle slots, an initial state of the protocol |
| IoRequestBuffer.RequestBuffer.Perform | include/linux/acrn.h:149-162 | takes a step in place exactly when it is enabled, and otherwise changes nothing |
| IoRequestBuffer.RequestBuffer.Take | include/linux/acrn.h:123-125 | claiming and assigning one PENDING slot are two enabled steps of the protocol |
| IoRequestBuffer.RequestBuffer.Dispatch | include/linux/acrn.h:122-125 | the HSM's scan makes exactly the PENDING requests PROCESSING, gives each to the client of its access, changes nothing else, and is a run of protocol steps |
| Relocation.FullMeaning | include/drm/i915_drm.h:979-1007 | after full relocation every site holds the word for its target's address and every other byte is untouched |
| Relocation.SkippingIsFull | include/drm/i915_drm.h:998-1007 | skipping the relocations whose presumed offset is current leaves the bytes of full relocation, in a buffer that holds its presumed words |
| Relocation.SkippingExact | include/drm/i915_drm.h:998-1007 | for any buffer contents, skipping is right exactly when the sites left alone hold the words for their presumed offsets |
| Relocation.SumImages | include/drm/i915_drm.h:990-994 | two target offsets give the same relocated word exactly when they agree modulo its width |
| Relocation.SumWord | include/drm/i915_drm.h:990-994 | the relocated word reads as target offset plus delta, modulo its width |
| Relocation.ShiftedWord | include/drm/msm_drm.h:158-172 | the relocated 32-bit word bit by bit: bit i is bit i - shift of gpuaddr + reloc_offset, for shifts of either sign, or bit i of `or` |
| Overlaps.SoundExact | include/drm/msm_drm.h:198-208 | for any sites, overlapping or not, and any contents: skipping is right wherever the targets are exactly when the buffer shows the presumed words and no byte that another target writes over tells addresses apart |
| Relocation.Relocate | include/drm/i915_drm.h:998-1007 | the in-place loop over one buffer: patched bytes and written-back presumed offsets |
| ExecBuffer.SubmitMeaning | include/drm/i915_drm.h:1118-1126 | after a submit the listed buffers hold the words for current offsets, presumed offsets and `offset` fields are current, and nothing else changed |
| ExecBuffer.SubmittedWords | include/drm/i915_drm.h:990-994 | after a submit every relocation of a listed buffer reads as the target's current offset plus delta |
| ExecBuffer.OtherSteps | include/drm/i915_drm.h:1118-1126 | a move, a rewrite and a filled-in `offset` field each change that one thing of one object |
| ExecBuffer.SkippingIsInvisible | include/drm/i915_drm.h:990-1007 | in every run of moves, rewrites, `offset` fields filled in by user space and submits, with or without NO_RELOC under its contract, the skipping device ends in the state of the one that relocates everything |
| ExecBuffer.ClosedListsAreSafe | include/drm/i915_drm.h:1118-1126 | if buffers are emitted with returned offsets, `offset` fields are filled in with what entries presume and lists are closed under targets, every submit may use NO_RELOC |
| ExecBuffer.NoRelocExact | include/drm/i915_drm.h:1282-1287 | with every target in the list, a NO_RELOC submit leaves the right bytes in every placement by the kernel exactly when the caller's relocation entries agree with the caller's `offset` fields |
| ExecBuffer.NoRelocContractExact | include/drm/i915_drm.h:1118-1126 | a NO_RELOC submit gives the whole outcome of full relocation in every placement exactly when every target is listed with the presumed offset in its `offset` field |
| ExecBuffer.ContractIsAgreement | include/drm/i915_drm.h:1118-1126 | the header's contract makes the fields agree, and for words that hold whole offsets it is the same condition |
| ExecBuffer.LeftOutObjectGoesStale | include/drm/i915_drm.h:1118-1126 | a concrete run in which a buffer sits out one submit, the caller's fields then disagree, and NO_RELOC leaves a stale word |
| ExecBuffer.Device.Execute | include/drm/i915_drm.h:1282-1287 | the ioctl with both shortcuts performs the modelled submit in place |
| CommandSubmit.SortedApart | include/drm/msm_drm.h:166-168 | sorted 32-bit words do not overlap exactly when neighbours are four bytes apart, as aligned words are |
| CommandSubmit.SubmitExact | include/drm/msm_drm.h:198-208 | any sorted submit with its own table and streams ends alike with and without skipping, in every placement by the kernel, exactly under a condition on the streams and table that the caller passes |
| CommandSubmit.DisjointExact | include/drm/msm_drm.h:198-208 | without overlaps that condition is that the streams hold the words for the presumed addresses passed |
| CommandSubmit.SumsExact | include/drm/etnaviv_drm.h:132-137 | for words `addr + offset`, streams that hold their presumed words may be skipped in every placement exactly when overlapping relocations have the same target |
| CommandSubmit.OverlapBreaksSkipping | include/drm/etnaviv_drm.h:132-154 | a sorted submit of two overlapping 32-bit words, both held as presumed, on which skipping differs from full relocation |
| CommandSubmit.SubmitMeaning | include/drm/msm_drm.h:158-168 | a submit is EINVAL exactly for unsorted relocations and then changes nothing; otherwise every byte is that of the last relocation to cover it, for the current address, or untouched, words that do not overlap are all in place, and the table comes back with current addresses |
| CommandSubmit.SubmittedWords | include/drm/msm_drm.h:158-172 | after a submit every word that overlaps no other reads as `((gpuaddr + reloc_offset) << shift)` with the bits of `or` added, cut to 32 bits, for the current address |
| CommandSubmit.Refusals | include/drm/msm_drm.h:166-168 | a submit is refused exactly when some stream has offsets i < j that do not increase, a softpin submit also when a buffer cannot be mapped, and refused submits change nothing |
| CommandSubmit.SkippingIsInvisible | include/drm/msm_drm.h:198-208 | over whole runs of submits with any tables and streams that meet the exact condition, skipping the words whose presumed address is valid gives the same buffers, addresses, tables and errors after every step as patching all |
| CommandSubmit.SoftpinPatchesNothing | include/drm/etnaviv_drm.h:155-159 | a successful softpin submit maps exactly the buffers of its table at their presumed addresses and leaves all streams alone, which is right exactly when they show the words for those addresses |
| CommandSubmit.CheckSorted | include/drm/etnaviv_drm.h:132-137 | the loop accepts exactly the sorted relocation lists |
| CommandSubmit.Queue.Run | include/drm/msm_drm.h:250-261 | the submit ioctl patches stream after stream in place, as the modelled submit, and returns its error and table |
| SubmitRuns.ClosedRequestsAreSafe | include/drm/msm_drm.h:198-208 | passing on the address last returned is safe in every run in which a submit brings along every stream that uses a buffer of its table |
| SubmitRuns.DisciplinedRunsAgree | include/drm/msm_drm.h:198-208 | in every such run all results are the same with and without skipping |
| SubmitRuns.LeftOutStreamGoesStale | include/drm/msm_drm.h:198-208 | a concrete run in which a stream sits out one submit and the returned address, still valid, leaves a stale word in it |
| TextureLru.TouchKeepsLru | include/drm/i810_drm.h:165-183 | touching a region keeps a ring of all regions and the sentinel with ages that never increase, and moves just this region to the front |
| TextureLru.NewListIsLru | include/drm/i810_drm.h:180-183 | a new list of any number of regions is such a ring |
| TextureLru.SingleRing | include/drm/i810_drm.h:150-154 | following next from the sentinel meets every region and the sentinel once and comes back to the sentinel |
| TextureLru.PrevInvertsNext | include/drm/i810_drm.h:150-154 | prev is the inverse of next at every element |
| TextureLru.LastIsLeastRecent | include/drm/i810_drm.h:171-178 | the region before the sentinel is a least recently used one |
| TextureLru.TouchedAges | include/drm/i810_drm.h:150-154 | a touch stamps its own region and no other |
| TextureLru.Sarea.Touch | include/drm/i810_drm.h:181-183 | the link assignments on the array perform the modelled touch |
| TextureLru.Sarea.Survey | include/drm/i810_drm.h:165-169 | the walk along the links keeps exactly the stamps that are still current |
| TextureClients.EveryRun | include/drm/i810_drm.h:165-169 | any sequence of touches and looks by any clients keeps the LRU and the clients' bookkeeping |
| TextureClients.SkippingIsInvisible | include/drm/i810_drm.h:165-169 | a client that skips the walk while texAge is unchanged always believes what one that walks every time believes |
| TextureClients.DifferentAgeMeansStolen | include/drm/i810_drm.h:165-169 | a region's age differs from a client's stamp exactly when another client touched it last |
| TextureClients.LookTellsTheTruth | include/drm/i810_drm.h:165-169 | after a look, skipped or not, a client believes it owns exactly the regions it touched last |
| TextureClients.LookExact | include/drm/i810_drm.h:165-169 | for a client with any beliefs, a look skips exactly on the age seen before and is then right exactly when all its stamps are current |
| TextureClients.WalkNeeded | include/drm/i810_drm.h:165-169 | after a touch a client may skip its next walk exactly when the touch was its own and it was up to date before |
| TextureClients.OwnerIsLastToucher | include/drm/i810_drm.h:165-169 | over any run the recorded owner of a region is the last client that touched it |
| TextureClients.SeenMakesTrustRight | include/drm/i810_drm.h:165-169 | a toucher that had seen the age before its touch may take over the new one without a walk |
| TextureClients.TrustNeedsSeen | include/drm/i810_drm.h:165-169 | for a client with another region, one touch by somebody else makes that guard false and taking over the new age wrong |
| TextureClients.BlindTrustFails | include/drm/i810_drm.h:165-169 | a run from a new list in which taking over the age without the guard hides a stolen region |
| Tiling.AddressInverse | include/drm/drm_fourcc.h:602-620 | in any nest of row-major grids every position has its own address in range |
| Tiling.PositionInverse | include/drm/drm_fourcc.h:602-620 | every address in range is that of one position |
| Tiling.RightIsNext | include/drm/drm_fourcc.h:613-615 | one block to the right is one block further in memory |
| Tiling.DownIsNextRow | include/drm/drm_fourcc.h:613-615 | one block down is a row of blocks further in memory |
| Tiling.EveryBlock | include/drm/drm_fourcc.h:613-615 | every block is laid out by the inner grids, and blocks follow in row-major order |
| Tiling.VivanteSuperTiledBijection | include/drm/drm_fourcc.h:610-620 | the 64x64 super-tile map is a bijection on aligned images |
| Tiling.VivanteFormula | include/drm/drm_fourcc.h:613-615 | the address of every pixel in plain numbers: super-tiles of 4096 pixels, 8x4 groups of 128, 2x4 tiles of 16, 4x4 pixels, all row-major |
| Tiling.IntelXFormula | include/drm/drm_fourcc.h:452-456 | the X-tiled address of every byte in plain numbers |
| TFormat.DocumentedOrder | include/drm/drm_fourcc.h:821-826 | subtiles come as (BL, TL, TR, BR) left to right on even tile rows and (TR, BR, BL, TL) right to left on odd ones |
| TFormat.ConsecutiveSubtilesTouch | include/drm/drm_fourcc.h:821-826 | consecutive subtiles of a tile row share an edge, on even and odd rows |
| TFormat.SubtilePlace | include/drm/drm_fourcc.h:821-826 | the place in memory of every subtile in plain numbers, on even and odd tile rows |
| TFormat.TAddressFormula | include/drm/drm_fourcc.h:815-819 | the address of every byte in plain numbers: inside a subtile one for a byte, uw for a utile row, 64 for a utile, 256 for a row of utiles |
| TFormat.TAddressInverse | include/drm/drm_fourcc.h:810-828 | every byte of an aligned image has its own address in range |
| TFormat.TPositionInverse | include/drm/drm_fourcc.h:810-828 | every address in range is that of one byte of the image |
| Swizzle.SwizzleBits | include/drm/i915_drm.h:1527-1536 | no bit but bit 6 ever changes |
| Swizzle.ModeBits | include/drm/i915_drm.h:1527-1536 | bit 6 in each mode, as the XOR of bit 6 and exactly the address bits that the mode names |
| Swizzle.SwizzleInvolution | include/drm/i915_drm.h:1527-1536 | every mode undoes itself and stays in its 128-byte block |
| Swizzle.SwizzledTilingBijection | include/drm/drm_fourcc.h:450-465 | X-tiling with 4 KB or 2 KB tiles, or any multiple of 128 bytes, followed by any swizzle is a bijection |
| Sand.ColumnSteps | include/drm/drm_fourcc.h:836-846 | memory starts at (0, 0), one position further in a column line is one further, lines are a column width apart, columns one column height of lines |
| Sand.Widths | include/drm/drm_fourcc.h:857-864 | modifier types 2 to 5 are the columns of 32, 64, 128 and 256 |
| Sand.InjectiveExact | include/drm/drm_fourcc.h:836-846 | an image has distinct addresses exactly when it is no taller than the column height or has a single column |
| Sand.DecodedHeightSeparates | include/drm/drm_fourcc.h:857-874 | the height decoded from the modifier separates all positions of an image no taller than it, and stripping it leaves the height-less modifier |
| BitFields.PutKeepsOthers | include/drm/drm_fourcc.h:1365-1370 | setting a field keeps all other bits of all words exactly when what the n-bit shift leaves of the value fits the mask |
| BitFields.UpdatesAreAMap | include/drm/drm_fourcc.h:1365-1370 | any sequence of clear-and-set updates is a map from field to last value, with all other bits fixed |
| BitFields.OredFieldsReadBack | include/drm/amdgpu_drm.h:361-365 | fields ORed together once each read back, the others are zero |
| FormatModifiers.ModCodeParts | include/drm/drm_fourcc.h:383-384 | vendor and 56-bit value can be read back from a modifier |
| FormatModifiers.AmdUpdates | include/drm/drm_fourcc.h:1258-1275 | rewriting AMD fields in any order keeps the vendor byte and bits 55:36, and each field has its last value |
| FormatModifiers.AmdLayout | include/drm/drm_fourcc.h:1305-1363 | the AMD fields fill bits 0 to 35 without a gap, with the header's masks |
| FormatModifiers.CanonicalForm | include/drm/drm_fourcc.h:746-753 | canonicalisation is idempotent, changes only the page kind and never leaves a block-linear modifier with kind 0 |
| FormatModifiers.CanonicalMerges | include/drm/drm_fourcc.h:740-753 | two modifiers share a canonical form exactly when equal, or block-linear and different only by kind 0 versus 0xfe |
| FormatModifiers.Canonical16Bx2 | include/drm/drm_fourcc.h:776-777 | every 16BX2_BLOCK(v) becomes BLOCK_LINEAR_2D(0,0,0,0xfe,v) |
| FormatModifiers.BlockLinearField | include/drm/drm_fourcc.h:732-738 | each argument of BLOCK_LINEAR_2D, cut to its width, is read back from its field |
| FormatModifiers.BlockLinearBits | include/drm/drm_fourcc.h:732-738 | every bit of a block-linear modifier in terms of the arguments' bits |
| FormatModifiers.BroadcomStripped | include/drm/drm_fourcc.h:805-807 | the parameter is removed whatever it is |
| FormatModifiers.BroadcomParamReadBack | include/drm/drm_fourcc.h:800-804 | the parameter is read back exactly when it is below 2^31 |
| TilingFlags.TilingReadBack | include/drm/amdgpu_drm.h:330-365 | tiling words of either table read back every field set once, for any values |
| TilingFlags.Layouts | include/drm/amdgpu_drm.h:330-359 | both tables have the header's masks and no gaps, except before SCANOUT in bit 63 |
| AOut.Exec.SetInfo | include/linux/a.out.h:48-51 | all three parts are replaced |
| AOut.Exec.SetMagic | include/linux/a.out.h:52-53 | the magic is replaced, machine type and flags are kept |
| AOut.Exec.SetMachtype | include/linux/a.out.h:55-57 | the machine type is replaced, magic and flags are kept |
| AOut.Exec.SetFlags | include/linux/a.out.h:59-61 | the flags are replaced, magic and machine type are kept |
| AOut.Starts | include/linux/a.out.h:76-115 | exactly four magics are accepted; text starts at 1024 in ZMAGIC files, at 0 in QMAGIC ones and behind the header otherwise, and is loaded at the page size for QMAGIC and at 0 otherwise |
| AOut.FileLayout | include/linux/a.out.h:84-110 | the sections of an accepted file follow one another without gap or overlap, and only QMAGIC has the header in the text |
| AOut.LoadLayout | include/linux/a.out.h:112-139 | loaded text, data and bss are ordered and disjoint, data starting at the least segment multiple outside OMAGIC |
| Ioctl.DecodeEncode | include/asm-generic/ioctl.h:69-95 | the decoders return the arguments exactly when each fits its width, for all widths |
| Ioctl.EncodeDecode | include/asm-generic/ioctl.h:69-95 | re-encoding restores a number exactly when it has no bit above the direction |
| Ioctl.EncodeInjective | include/asm-generic/ioctl.h:69-73 | commands are equal exactly when direction, type, number and size are |
| Ioctl.DriverCommandsApart | include/drm/drm.h:1095-1104 | driver commands 0 to 0x5f are the numbers 0x40 to 0x9f, and none equals a core command |
| Topology.BitsDistinct | include/drm/i915_drm.h:2583-2610 | the slice, subslice and EU formulas address pairwise distinct bits |
| Topology.Fill | include/drm/i915_drm.h:2583-2643 | filling data[] from a list of items makes the query formulas answer 1 for exactly those items |
| Topology.SliceFormula | include/drm/i915_drm.h:2587-2591 | the slice formula, in plain numbers, on filled data |
| Topology.SubsliceFormula | include/drm/i915_drm.h:2593-2601 | the subslice formula, in plain numbers, on filled data |
| Topology.EuFormula | include/drm/i915_drm.h:2603-2609 | the EU formula, in plain numbers, on filled data |
| FormatBlob.Build | include/drm/drm_mode.h:1052-1076 | entries built window by window read back as exactly the given relation, one aligned entry for each modifier and window |
| FormatBlob.Areas | include/drm/drm_mode.h:1028-1050 | header, formats and modifiers are at their offsets without overlap |
| FormatBlob.BlobRoundTrip | include/drm/drm_mode.h:1028-1076 | reading the bytes through the header's counts and offsets returns the formats and what the entries say |
| FormatBlob.FirstExample | include/drm/drm_mode.h:1053-1060 | formats 0 and 2 give the entry that the header's first example shows |
| FormatBlob.SecondExample | include/drm/drm_mode.h:1062-1069 | formats 98 to 102 of 128 give the entry that its second example shows |
| FormatBlob.Publish | include/drm/drm_mode.h:1028-1076 | from formats and any relation to bytes and back: the blob's header, with version 1 and no flags, and its entries give exactly the formats and the relation |
| EventStream.ParseEncoded | include/drm/drm.h:1107-1121 | encoded events parse back by their length fields |
| EventStream.ParseIsExact | include/drm/drm.h:1107-1121 | bytes that parse are exactly those of the events they parse into |
| EventStream.FittingIsMost | include/drm/drm.h:1111-1113 | a read takes as many whole events as fit, and one more would not |
| EventStream.EventQueue.Read | include/drm/drm.h:1111-1113 | the loop hands out just those events and leaves the rest |
| EventStream.WholeEventsInOrder | include/drm/drm.h:1107-1121 | over any arrivals and reads the bytes handed out are a prefix of the events that arrived, in order, none split, lost or repeated |
| EventStream.HeaderExample | include/drm/drm.h:1111-1113 | of two events of 64 bytes a read of 100 bytes returns one |
| EventStream.ReadProgress | include/drm/drm.h:1111-1113 | a read makes progress exactly when the head event fits, and never overfills the buffer |
| XvmcLocks.OwnCacheLine | include/drm/via_drm.h:45-49 | each lock starts on a line boundary, with its line inside the area |
| XvmcLocks.FirstLine | include/drm/via_drm.h:45-49 | lock k is k lines above the least line boundary not below the base |
| XvmcLocks.LinesDisjoint | include/drm/via_drm.h:194-200 | different locks never share a line |

## Left out

- Constant tables, and ioctl argument structs without a stated contract: nothing to prove about them.
- One-branch predicates and setters (autofs, atm, siginfo, batadv) and further packed words (audit, SDEI, hugetlb): they would only add easy members.
- `fourcc_code`, split Vivante layouts, Intel Y and Yf tiling, Samsung tiles: further instances of the field and grid theorems, or not described precisely enough.
- Compression formats (AFBC, AFRC, Amlogic FBC, DCC, CCS) and the SDRAM-bank padding of Broadcom UIF: not described precisely enough to model.
- DRM lock acquisition, syncobj waits, fences and page flips: the headers declare only the data.
- i915 execbuffer: memory domains, fences, pinned objects and the byte size of a relocated word for each GPU generation; any size is covered.
- msm and etnaviv submits: what the kernel may already have patched when it refuses an unsorted list.
- TextureLru.Sarea.Touch: ages are unbounded integers, because overflow of the signed `texAge` has no defined meaning.
- AOut.LoadLayout: sums of sizes do not wrap at 32 bits, and ALIGN is rounding up to a multiple, since its definition is elsewhere.
- Memory ordering: protocol steps are atomic, as the barriers that `acrn.h` asks for make them.
