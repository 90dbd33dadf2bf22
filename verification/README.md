# HyperPod, verified

A Dafny model of the parts of HyperPod that carry state, loops and arithmetic: the
virtqueue and its register file, the I/O token bucket, the guest memory image at boot, the
scaling monitor and the fixed-VHD backend. `dafny verify dfyconfig.toml` checks it.

| module | models |
|---|---|
| `Results`, `Bytes`, `Arithmetic` | outcomes; words, byte order and patches of memory; facts about quotients |
| `Ram` | guest RAM as one byte array |
| `Boot`, `PageWalk`, `Elf`, `BootSequence` | the boot artefacts, the page walk of the processor, the kernel loader, and their composition |
| `BootProtocol`, `KernelFiles` | what a booting kernel finds, and which kernel files load and how, in the numbers of the boot protocol and the ELF ABI |
| `DescriptorChains`, `Virtqueue`, `RingProtocol` | descriptor chains as linked lists, popping one from guest memory, and whole runs of driver and device |
| `MmioRegisters` | the VirtIO-MMIO registers against the log of all writes |
| `QueueReadiness` | when a queue answers nothing, and runs over a queue that is switched off |
| `TokenBuckets`, `TokenBucketRuns`, `TokenBucketRetuning`, `TokenBucketRetry`, `TokenBucketChanges` | the throttle, its whole-run bounds, bursts while the rate changes, what its wait hint is worth, and what a change of rate or capacity keeps |
| `Scaling` | the monitor and its sink |
| `Storage`, `Vhd` | format detection and the sector backend |
| `Layouts` | descriptors, rings and VHD footers as other programs write them, and the readers as their inverses |

Code that changes things in place is modelled by classes, arrays and loops whose methods
are proved against functions of the old state; the theorems are about those functions and
about runs of them. Some functions of the source appear in parts: a pop is `NextHead` and
`WalkChain`, the zero page is `WriteSetupHeader` and `WriteE820`, and the ELF loader is one
method for each of its checks and writes and for one iteration of its loop.

The functions that methods are proved against share their constants. What those constants have
to be is stated apart, with offsets, magic numbers and bounds written out: `ProgrammingSticks`,
`ReadsBack` and `SwitchedOffPops` for the registers, `KernelFindsAll` for the boot image,
`KernelBytes` and `StoredKernelAcceptedIff` for kernels, `ThereAndBack` and `MovesIff` for the
monitor, `FooterDecidesOpen`, `FooterDecidesFormat` and `ExtensionDecides` for disks.

Conventions. `usize` has 64 bits. Additions the source leaves unchecked wrap, as they do in
the release profile, which keeps overflow checks off; narrowing casts truncate. A slice
index that would panic is an error value. Bits are taken apart with division and remainder.
Instants are nanoseconds in 64 bits, so rate times elapsed time fits the 128 bits the source
gives it. Each locked method is one step. The lengths of files and strings are at most
`isize::MAX`.

A driver-feature selector above 1 writes the high half (`FeaturesAfter`).

Where the code does not keep what its own words promise, the model follows the code, and a
theorem says exactly when the promise is kept:

- The wait hint is documented as the minimum wait before retrying. It is floored, and it leaves
  out the time already passed since the last credit, so it can be a nanosecond short
  (`HintTooShort`) or up to a token's time too long (`HintTooLong`). `HintSufficesIff` says for
  every refused call when it suffices, `HintIsLeastIff` when it is the minimum, and
  `ThirdRetryIff` at which rates following it three times is always enough.
- The rate is documented as the steady-state rate. `WorstYieldBound` is the most that flooring
  can lose of it at each rate, `WorstYieldIsAttained` has runs that lose as much, and
  `LosslessIffWholeRate` says at which rates nothing is lost.
- The capacity is documented as the burst allowance. At a fixed rate `SameCapacitySufficesIff`
  says when an exact bucket of that capacity accounts for every burst, and one token more always
  does (`WindowBound`, `DominatedByExact`). The rate may be set at any time, and a new rate
  reaches back to the last credit: a bucket paused and resumed grants its capacity twice in one
  instant (`TwiceTheCapacity`), and never more than the tokens it holds and one capacity above
  rate times time (`RetunedWindowBound`). `OneBurstIff` says which rates can be switched among
  with the bound of a fixed rate.
- The narrowing cast of the tokens earned forgets multiples of 2^64: `RetryIffWithCast` is the
  exact condition for a grant, and `CastForgets` a caller refused for that reason.
- The VHD backend promises not to touch its footer. The size check adds without overflow
  checking, and the size 2^64 - 512 passes it: `OpenedFitsIff` and `FooterSafeIff` say that
  this one size is the only exception.
- The user guide says formats are detected by extension and then verified by magic, and the
  code that detection fails only on I/O errors: `ExtensionAgreesWithBytesIff` and
  `DetectFailsIff` say when, with `VhdxByNameOnly` and `EmptyVhdFails` as inputs.
- The user guide says the monitor steps by 25% of the distance: `QuarterStepIff` says when,
  and `LastShareIsWhole` is an input at which it does not.

## Model

| member | source | states |
|---|---|---|
| DescriptorChains.WalkIffChain | hyperpod/src/vmm/common/device/mmio.rs:218-237 | the bounded walk answers a chain exactly when the table declares one (NEXT links of any length ending at a descriptor without NEXT): the step bound rejects no well-formed chain and accepts nothing else |
| DescriptorChains.WalkFindsChain | hyperpod/src/vmm/common/device/mmio.rs:218-236 | if a chain exists, the walk answers exactly its descriptors, in order |
| DescriptorChains.WalkOutcome | hyperpod/src/vmm/common/device/mmio.rs:220-237 | every answer of the walk, from where the links lead: too long, index out of range, unreadable descriptor, or the chain |
| DescriptorChains.WalkPath | hyperpod/src/vmm/common/device/mmio.rs:220-236 | the links from any head go on until the bound or a reason to stop, so `WalkOutcome` covers every table |
| DescriptorChains.ChainUnique | hyperpod/src/vmm/common/device/mmio.rs:220-236 | at most one chain starts at a head |
| DescriptorChains.ChainDistinct | hyperpod/src/vmm/common/device/mmio.rs:220-236 | a chain visits no descriptor twice: what is accepted is acyclic |
| DescriptorChains.ChainFits | hyperpod/src/vmm/common/device/mmio.rs:220 | a chain, however long, is shorter than the table plus one (pigeonhole), which is why the bound never bites |
| DescriptorChains.CycleRejected | hyperpod/src/vmm/common/device/mmio.rs:220-237 | links that return to a visited index mean there is no chain and the walk fails |
| DescriptorChains.TooLongMeansCycleOrExit | hyperpod/src/vmm/common/device/mmio.rs:237 | `size` descriptors in a row with NEXT are a cycle, or every descriptor once and then a link out of the table; never a chain that is merely long |
| DescriptorChains.DistinctBelow | hyperpod/src/vmm/common/device/mmio.rs:220-223 | pigeonhole on table indices, with the case of equality |
| Virtqueue.ReadDescriptor | hyperpod/src/vmm/common/device/mmio.rs:224-230 | the four reads, at wrapped 64-bit addresses, decode entry `idx` of the table |
| Virtqueue.WalkChain | hyperpod/src/vmm/common/device/mmio.rs:218-237 | the loop computes the walk over the table in guest memory |
| Virtqueue.NextHead | hyperpod/src/vmm/common/device/mmio.rs:207-216 | the head of the next request, and the cursor, bumped exactly when a head was read |
| Virtqueue.PopChain | hyperpod/src/vmm/common/device/mmio.rs:206-238 | the answer and the new cursor of a pop; only `last_avail_idx` changes |
| Virtqueue.PopIffChain | hyperpod/src/vmm/common/device/mmio.rs:206-238 | on a pending head a pop consumes one entry and answers a chain exactly when one exists, then it is that chain, with distinct indices |
| Virtqueue.PopOutcome | hyperpod/src/vmm/common/device/mmio.rs:206-238 | with the table in RAM a pending head ends in exactly one of: its chain, an index out of range where the links lead, or too long with the cycle or exit as the cause |
| Virtqueue.TableInRamReadable | hyperpod/src/vmm/common/device/mmio.rs:224-230 | a table that lies in RAM can be read at every index, for any size a 16-bit index reaches |
| QueueReadiness.NothingIff | hyperpod/src/vmm/common/device/mmio.rs:207-216 | exactly which pops say that there is nothing, with the table and ring anywhere: the queue is not ready, has size zero, or the ring's index equals the cursor; the cursor advances exactly when a head was read |
| QueueReadiness.SwitchedOffPops | hyperpod/src/vmm/common/device/mmio.rs:141-142 | after any register writes of which the last to QueueReady (0x044) or QueueNum (0x038) made while the queue was selected is zero or absent, a pop says there is nothing and leaves the cursor, for every memory |
| QueueReadiness.ZeroedReadySwitchesOff | hyperpod/src/vmm/common/device/mmio.rs:142 | such a log, by the place of its last write to QueueReady |
| QueueReadiness.SwitchedOffRunTakesNothing | hyperpod/src/vmm/common/device/mmio.rs:206-216 | a run over a queue that is switched off at every step takes nothing, whatever the driver does to memory and registers |
| Layouts.NextIsFlagOne | hyperpod/src/vmm/common/device/mmio.rs:231-233 | the device follows the flag with value 1, and WRITE, INDIRECT and reserved flags make no difference |
| Layouts.DescriptorReads | hyperpod/src/vmm/common/device/mmio.rs:224-230 | a descriptor stored in entry idx of a table of 16-byte entries, in the layout of the standard, is the one the device reads |
| Layouts.AvailReads | hyperpod/src/vmm/common/device/mmio.rs:210-215 | an available ring stored in the layout of the standard gives the index the driver wrote and the head in slot last mod size |
| Layouts.StoredRequestPops | hyperpod/src/vmm/common/device/mmio.rs:206-238 | a request stored in the table and published in the ring is popped as exactly the driver's descriptors |
| Layouts.ProgrammedQueueDelivers | hyperpod/src/vmm/common/device/mmio.rs:129-238 | end to end: after any register writes, selecting and programming a queue and storing a request where it points makes the device pop that request |
| RingProtocol.SlotsDistinctIffDivides | hyperpod/src/vmm/common/device/mmio.rs:214 | `size` outstanding heads sit in different slots exactly when the size divides 2^16 |
| RingProtocol.SlotIsMod | hyperpod/src/vmm/common/device/mmio.rs:214 | for such sizes wrapping the counter at 16 bits does not move its slot |
| RingProtocol.WrappedEqual | hyperpod/src/vmm/common/device/mmio.rs:211 | comparing 16-bit indices is comparing the unbounded counters while they are less than 2^16 apart |
| RingProtocol.OutstandingNotFree | hyperpod/src/vmm/common/device/mmio.rs:210-216 | within the bound of `size` outstanding heads, no slot the driver may write holds an outstanding one, however often the counters have wrapped |
| RingProtocol.PrepareKeepsInv | hyperpod/src/vmm/common/device/mmio.rs:210-216 | a driver that writes free slots, buffers, descriptors and anything else but its index, in any order and any number of steps, keeps the correspondence |
| RingProtocol.PublishKeepsInv | hyperpod/src/vmm/common/device/mmio.rs:210-216 | a driver that bumps its index past one or a batch of heads in the next free slots keeps the correspondence |
| RingProtocol.DeviceTakesNext | hyperpod/src/vmm/common/device/mmio.rs:206-238 | a pop takes the next outstanding head, or changes nothing |
| RingProtocol.StepKeepsInv | hyperpod/src/vmm/common/device/mmio.rs:206-238 | every driver or device step keeps the correspondence of wrapped cursors and unbounded counters |
| RingProtocol.RunKeepsInv | hyperpod/src/vmm/common/device/mmio.rs:206-238 | in every run the k-th head consumed is the k-th published, walked in the memory of that moment; none skipped, repeated or invented |
| RingProtocol.NoneIffDrained | hyperpod/src/vmm/common/device/mmio.rs:210-213 | in every run `pop` says there is nothing exactly when every published head has been taken |
| RingProtocol.DeliveredExactly | hyperpod/src/vmm/common/device/mmio.rs:206-238 | if outstanding heads have chains, the heads delivered are exactly the published ones, in order, across any number of wraparounds |
| RingProtocol.DrainTerminates | hyperpod/src/vmm/common/device/mmio.rs:210-237 | over any table, exactly (avail_idx - last_avail_idx) mod 2^16 pops consume something and the next says there is nothing |
| RingProtocol.RingInRamReadable | hyperpod/src/vmm/common/device/mmio.rs:210-215 | a ring that lies in RAM meets the hypothesis of `DrainTerminates` |
| MmioRegisters.LastHitDecides | hyperpod/src/vmm/common/device/mmio.rs:165-170 | `LastFor`, the reference for a queue register, is the last write to it made while that queue was selected |
| MmioRegisters.NoHitMeansNone | hyperpod/src/vmm/common/device/mmio.rs:165-170 | and is absent if there was none |
| MmioRegisters.HalvesOfCombine | hyperpod/src/vmm/common/device/mmio.rs:149-154 | the mask-and-or of each half replaces that half and keeps the other |
| MmioRegisters.ConfiguredAfter | hyperpod/src/vmm/common/device/mmio.rs:141-154 | one write changes exactly the selected queue, in exactly the register it names |
| MmioRegisters.FeaturesAfter | hyperpod/src/vmm/common/device/mmio.rs:134-139 | driver features: the low half for selector 0, the high half for any other |
| MmioRegisters.DeviceConfiguredAfter | hyperpod/src/vmm/common/device/mmio.rs:131-148 | one write changes the device's own registers as the register map says |
| MmioRegisters.ProgrammingSticks | hyperpod/src/vmm/common/device/mmio.rs:140-154 | after any log, selecting a queue and programming it at the offsets of the standard leaves exactly that configuration, 64-bit addresses included, and no other queue changes |
| MmioRegisters.FeaturesAccepted | hyperpod/src/vmm/common/device/mmio.rs:133-139 | features written half by half, low under selector zero and high under any other, are the features accepted |
| MmioRegisters.AndNotBits | hyperpod/src/vmm/common/device/mmio.rs:144-147 | acknowledging clears exactly the bits written |
| MmioRegisters.VirtioMmio.constructor | hyperpod/src/vmm/common/device/mmio.rs:76-89 | a new device is what the empty log says, with one queue for each size |
| MmioRegisters.VirtioMmio.MutateSelectedQueue | hyperpod/src/vmm/common/device/mmio.rs:165-170 | only the selected queue changes; an out-of-range selection changes none |
| MmioRegisters.VirtioMmio.WriteDevice | hyperpod/src/vmm/common/device/mmio.rs:131-148 | the device registers after a write |
| MmioRegisters.VirtioMmio.Write32 | hyperpod/src/vmm/common/device/mmio.rs:129-158 | after any sequence of writes every register is the function of the log that `Configured` and `DeviceConfigured` define; a notification answers its queue index |
| MmioRegisters.VirtioMmio.ReadsBack | hyperpod/src/vmm/common/device/mmio.rs:96-124 | every register, by its offset in the standard, reads back as the log and the device say: the magic and version, identity, feature halves and the zero beyond them, queue maximum, readiness, status, configuration words; everything else is zero |
| TokenBuckets.TokenBucket.constructor | hyperpod/src/vmm/common/device/throttle.rs:29-38 | a new bucket is full |
| TokenBuckets.TokenBucket.SetRate | hyperpod/src/vmm/common/device/throttle.rs:48-51 | only the rate changes |
| TokenBuckets.TokenBucket.SetCapacity | hyperpod/src/vmm/common/device/throttle.rs:53-59 | the capacity changes and only the tokens above it are lost (`ResizedGrantIff`) |
| TokenBuckets.TokenBucket.Refill | hyperpod/src/vmm/common/device/throttle.rs:86-97 | the refill step: floored, truncated, saturated, clamped, and dated only when something was earned |
| TokenBuckets.TokenBucket.TryConsumeAt | hyperpod/src/vmm/common/device/throttle.rs:67-82 | the verdict and the new bucket, including the starvation wait at rate 0 and the clamp of the hint |
| TokenBucketChanges.GrantIff | hyperpod/src/vmm/common/device/throttle.rs:67-73 | exactly which calls are granted: those the tokens cover, alone or, within the capacity, with what is due |
| TokenBucketChanges.RetunedGrantIff | hyperpod/src/vmm/common/device/throttle.rs:48-51 | after a change of rate, exactly which calls are granted: the tokens are kept, and what is due is due at the new rate |
| TokenBucketChanges.ResizedGrantIff | hyperpod/src/vmm/common/device/throttle.rs:53-59 | after a change of capacity, exactly which calls are granted: the tokens that fit are kept |
| TokenBucketChanges.ChangesGrantIff | hyperpod/src/vmm/common/device/throttle.rs:48-59 | after any sequence of changes of rate and capacity a call at an instant that earns nothing is granted exactly when the tokens held before cover it and every capacity set since holds it |
| TokenBucketChanges.ResizeSpillsExcess | hyperpod/src/vmm/common/device/throttle.rs:53-59 | a resize gives up exactly the tokens above the new capacity, none when it grows |
| TokenBucketChanges.CallSpillsOverflow | hyperpod/src/vmm/common/device/throttle.rs:92-95 | a call gives up exactly what is due beyond a full bucket |
| TokenBucketChanges.StarvedWaitsAnHour | hyperpod/src/vmm/common/device/throttle.rs:74-78 | at rate zero a refused call is told to wait 3600 seconds and changes nothing |
| TokenBucketChanges.HintIsFloor | hyperpod/src/vmm/common/device/throttle.rs:79-81 | at any other rate, to wait for the shortfall in nanoseconds rounded down, or 2^64 - 1 if that does not fit 64 bits |
| TokenBuckets.RefillBounds | hyperpod/src/vmm/common/device/throttle.rs:86-97 | a refill never makes more of tokens and uncredited time than there was, and leaves less than one token's time uncredited |
| TokenBuckets.NoTruncation | hyperpod/src/vmm/common/device/throttle.rs:92-94 | when the cast to 64 bits loses nothing |
| TokenBucketRuns.RunAccounted | hyperpod/src/vmm/common/device/throttle.rs:48-97 | any interleaving of consuming, retuning and resizing, instants in any order: granted + held + spilled = first capacity + earned, and earned lies between half of the lowest rate times time and the highest rate times time |
| TokenBucketRuns.FixedRateAccounts | hyperpod/src/vmm/common/device/throttle.rs:67-97 | the same at one rate |
| TokenBucketRuns.RetuningBounded | hyperpod/src/vmm/common/device/throttle.rs:48-59 | tokens never exceed the capacity, and all ever granted is within the first capacity plus the highest rate times time, although a new rate reaches back to the last refill |
| TokenBucketRuns.WorstYieldBound | hyperpod/src/vmm/common/device/throttle.rs:86-97 | the most that flooring can lose at each rate: every run of calls earns at least `WorstYield` tokens for each `WorstGap` of the time it was credited for (one token for the longest gap that earns only one, below a token a nanosecond; the whole tokens of each nanosecond above), while no cast truncates |
| TokenBucketRuns.WorstYieldIsAttained | hyperpod/src/vmm/common/device/throttle.rs:92-96 | the bound is attained at every rate by runs of any length; below two tokens a nanosecond each of their polls earns one token where two, less at most one nanosecond's worth, were due |
| TokenBucketRuns.LosslessIffWholeRate | hyperpod/src/vmm/common/device/throttle.rs:11-12 | the rate is the steady-state rate under every polling pattern exactly when it is a whole number of tokens a nanosecond (while no cast truncates) |
| TokenBucketRuns.WindowBound | hyperpod/src/vmm/common/device/throttle.rs:67-97 | at a fixed rate and from any state, the grants in a window of calls stay below capacity + 1 plus rate times its length |
| TokenBucketRuns.WindowOfRunBound | hyperpod/src/vmm/common/device/throttle.rs:67-97 | the same for any window of any run from a fresh bucket |
| TokenBucketRuns.DominatedByExact | hyperpod/src/vmm/common/device/throttle.rs:86-97 | at a fixed rate an exact bucket with one token more capacity, starting equally full, affords every grant the code makes |
| TokenBucketRuns.SimulatedAffords | hyperpod/src/vmm/common/device/throttle.rs:86-97 | the simulation behind it, from any pair of states it relates |
| TokenBucketRuns.SameCapacitySufficesIff | hyperpod/src/vmm/common/device/throttle.rs:86-97 | at a fixed rate an exact bucket of the code's own capacity affords every run if and only if the rate is zero, the rate is at least a token a nanosecond, or the capacity is zero |
| TokenBucketRuns.OwnCapacityExceeded | hyperpod/src/vmm/common/device/throttle.rs:93-96 | otherwise a run of two calls that it cannot afford, for every such rate and capacity |
| TokenBucketRuns.SameCapacityDoesNotSuffice | hyperpod/src/vmm/common/device/throttle.rs:93-96 | an instance, with the window bound it exceeds |
| TokenBucketRetuning.RetunedWindowBound | hyperpod/src/vmm/common/device/throttle.rs:48-97 | with the rate and the capacity changed at any time, from any state and for any window, calls in any order: at most the tokens held, one capacity, and the highest rate times the length of the window |
| TokenBucketRetuning.TwiceTheCapacity | hyperpod/src/vmm/common/device/throttle.rs:48-51 | the bound is attained in a window of no length, for every capacity and rate: a bucket paused at rate zero, spent, resumed and spent again |
| TokenBucketRetuning.OneBurstIff | hyperpod/src/vmm/common/device/throttle.rs:48-51 | switching among a set of rates keeps the bound of a fixed rate, capacity + 1 plus the highest rate times time, in every window and from every state, if and only if the capacity is zero or all the rates earn their first token after the same number of nanoseconds |
| TokenBucketRetuning.OneTokenTooMany | hyperpod/src/vmm/common/device/throttle.rs:86-97 | otherwise a run that breaks it: the capacity and one token more in one instant |
| TokenBucketRetry.RetryIff | hyperpod/src/vmm/common/device/throttle.rs:67-81 | a retry is granted exactly when rate times the time since the last credit covers the shortfall |
| TokenBucketRetry.RetryIffWithCast | hyperpod/src/vmm/common/device/throttle.rs:67-97 | the exact condition for a grant to a bucket that is short, at any instant and with the narrowing cast: the tokens earned, modulo 2^64, cover the shortfall |
| TokenBucketRetry.CastForgets | hyperpod/src/vmm/common/device/throttle.rs:92-95 | an input on which the cast decides: granted after a nanosecond, refused after two seconds, when exactly 2^64 tokens were earned |
| TokenBucketRetry.RetryAfterRefusalIff | hyperpod/src/vmm/common/device/throttle.rs:67-81 | after any refused call, exactly which retries are granted: those at which rate times the time since the last credit covers the shortfall |
| TokenBucketRetry.HintSufficesIff | hyperpod/src/vmm/common/device/throttle.rs:61-81 | for every refused call: waiting exactly the hint suffices if and only if the request fits the capacity, the rate is not zero, the hint is not clamped, and either some time was uncredited or nothing was and the rate divides the shortfall in nano-tokens |
| TokenBucketRetry.HintIsLeastIff | hyperpod/src/vmm/common/device/throttle.rs:61-81 | for every refused call: the hint is the minimum wait, as documented, if and only if besides it is zero or the uncredited time makes up exactly what the floor rounded off |
| TokenBucketRetry.HintIsExactIffDivides | hyperpod/src/vmm/common/device/throttle.rs:61-81 | with nothing uncredited: less than the hint fails, one nanosecond more succeeds, the hint itself exactly when the rate divides the shortfall in nano-tokens |
| TokenBucketRetry.HintTooShort | hyperpod/src/vmm/common/device/throttle.rs:61-81 | an input for which the documented minimum wait is too short |
| TokenBucketRetry.HintTooLong | hyperpod/src/vmm/common/device/throttle.rs:61-81 | an input for which it is nine tenths of a second too long |
| TokenBucketRetry.ThirdRetrySucceeds | hyperpod/src/vmm/common/device/throttle.rs:67-97 | at up to one token a nanosecond, a sole caller that sleeps at least the hint each time is granted by its third retry |
| TokenBucketRetry.ThirdRetryIff | hyperpod/src/vmm/common/device/throttle.rs:67-97 | for requests within the capacity that holds of every caller exactly at rates from 1 to one token a nanosecond |
| TokenBucketRetry.RefusedForever | hyperpod/src/vmm/common/device/throttle.rs:67-81 | at rate zero or above that bound, a caller one token short that is refused each time |
| TokenBucketRetry.TwoRetriesMayFail | hyperpod/src/vmm/common/device/throttle.rs:67-97 | a caller refused at its second retry and granted at its third |
| TokenBucketRetry.FirstRetry | hyperpod/src/vmm/common/device/throttle.rs:79-81 | one sleep of the hint leaves at most one token missing |
| TokenBucketRetry.ZeroHintIffTooFast | hyperpod/src/vmm/common/device/throttle.rs:79-81 | above that rate the hint is zero exactly when the rate exceeds the shortfall in nano-tokens, and retrying at once changes nothing |
| TokenBucketRetry.PollingIsGranted | hyperpod/src/vmm/common/device/throttle.rs:67-97 | a sole caller that has polled in vain, at any instants in any order, is granted once rate times time covers twice the shortfall less one token |
| TokenBucketRetry.NeverAboveCapacity | hyperpod/src/vmm/common/device/throttle.rs:70-73 | a request above the capacity is never granted |
| Bytes.DecodeEncode | hyperpod/src/vmm/common/ram.rs:50-54 | little-endian decoding inverts encoding for every value the width holds |
| Bytes.EncodeDecode | hyperpod/src/vmm/common/ram.rs:68-72 | and encoding inverts decoding |
| Bytes.LittleEndianByte | hyperpod/src/vmm/common/ram.rs:50-54 | byte i of an encoding has weight 256^i |
| Ram.GuestRam.New | hyperpod/src/vmm/common/ram.rs:21-28 | fresh RAM is zeroed and of the size asked for in units of 2^20 bytes, unless that overflows |
| Ram.GuestRam.WriteSlice | hyperpod/src/vmm/common/ram.rs:38-48 | exactly the addressed bytes change, or none |
| Ram.GuestRam.WriteObj | hyperpod/src/vmm/common/ram.rs:50-54 | the word reads back and nothing around it changes |
| Ram.GuestRam.ReadSlice | hyperpod/src/vmm/common/ram.rs:56-66 | the addressed bytes, or the error that fits |
| Ram.GuestRam.ReadObj | hyperpod/src/vmm/common/ram.rs:68-72 | the little-endian word at the address, or the error |
| Boot.WriteGdt | hyperpod/src/vmm/common/boot.rs:34-47 | all entries and the IDT word are in place, nothing else changes, and it fails exactly when RAM is too small |
| Boot.GdtDescribesLongMode | hyperpod/src/vmm/common/boot.rs:35-41 | the four constants are a null entry, flat 64-bit code, flat data and a TSS in the descriptor layout |
| Boot.SetupPageTables | hyperpod/src/vmm/common/boot.rs:49-58 | all 514 entries are in place and no other byte of the tables changes |
| Boot.WriteCmdline | hyperpod/src/vmm/common/boot.rs:60-65 | the command line and its NUL are in place, nothing else changes |
| Boot.WriteSetupHeader | hyperpod/src/vmm/common/boot.rs:68-75 | every setup header field reads back |
| Boot.WriteE820 | hyperpod/src/vmm/common/boot.rs:77-85 | the e820 map a kernel reads is [1 MiB, end of RAM), or empty |
| Boot.WriteZeroPage | hyperpod/src/vmm/common/boot.rs:67-87 | both together; it fails exactly when RAM ends before its last field |
| PageWalk.FirstGibMapped | hyperpod/src/vmm/common/boot.rs:49-58 | the 4-level walk maps every address below 1 GiB to itself, writable |
| PageWalk.BeyondFirstGibFaults | hyperpod/src/vmm/common/boot.rs:49-58 | and finds no entry for any other 48-bit address when the rest of the upper tables is zero |
| PageWalk.TablesGiveIdentityMap | hyperpod/src/vmm/common/boot.rs:49-58 | installed tables over zeroed memory are the identity map of the first GiB and nothing more |
| Elf.CheckIdent | hyperpod/src/vmm/common/elf.rs:24-45 | exactly which files pass the header checks, in literal bytes, and for the others the first check that fails |
| Elf.KernelBytes | hyperpod/src/vmm/common/elf.rs:24-45 | which files are kernels, byte by byte, and what is said of every other file: the first difference decides |
| Elf.ReadHeader | hyperpod/src/vmm/common/elf.rs:48-62 | the fields of a header that lies in the file, or the error for where it lies; the wrapped addition included |
| Elf.LoadSegment | hyperpod/src/vmm/common/elf.rs:67-72 | the whole image of the segment is laid over memory; on failure, exactly the file bytes if only the zero fill failed, and the error for the write that did |
| Elf.LoadHeaders | hyperpod/src/vmm/common/elf.rs:47-74 | the loop: all headers loaded, or stopped at the first bad one with its error |
| Elf.Load | hyperpod/src/vmm/common/elf.rs:22-79 | succeeds exactly on acceptable files, answers the entry point, and leaves every byte as `LoadedByte` says; on failure answers the error of the first bad header and leaves memory exactly as the headers before it and its own copied file bytes made it |
| Elf.LastWriterWins | hyperpod/src/vmm/common/elf.rs:47-74 | each byte is the file byte or zero fill of the last loadable segment, in header order, covering it |
| Elf.UncoveredUnchanged | hyperpod/src/vmm/common/elf.rs:55-58 | a byte no loadable segment covers keeps its value; other headers have no effect |
| KernelFiles.PhdrReads | hyperpod/src/vmm/common/elf.rs:55-62 | a program header laid out as the ABI says is read back field by field |
| KernelFiles.EhdrReads | hyperpod/src/vmm/common/elf.rs:33-41 | so is the file header |
| KernelFiles.StoredIdentIff | hyperpod/src/vmm/common/elf.rs:24-45 | for every file with a stored header the checks pass exactly on 64-bit little-endian x86-64 (machine 62) ELF files with program headers of at least 56 bytes, and name the first difference otherwise |
| KernelFiles.OtherMachineRejected | hyperpod/src/vmm/common/elf.rs:33-36 | an aarch64 kernel is rejected whatever its segments |
| KernelFiles.HeaderOutside | hyperpod/src/vmm/common/elf.rs:48-54 | the error for a program header outside the file, the wrapped end included |
| KernelFiles.StoredKernelAcceptedIff | hyperpod/src/vmm/common/elf.rs:22-79 | a file that holds a file header and program headers laid out as the ABI says is accepted exactly when its segments to be loaded lie in the file and in RAM and there is one; its entry point is the stored one |
| KernelFiles.StoredKernelFails | hyperpod/src/vmm/common/elf.rs:64-72 | a file whose segments do not all fit stops at the first one that does not, and nowhere else, with the error that says whether the file, RAM or 64 bits ended too early |
| KernelFiles.StoredKernelLoads | hyperpod/src/vmm/common/elf.rs:47-74 | loading it leaves exactly the image its stored segments describe: at each address the file byte or zero fill of the last segment over it, elsewhere what was there |
| BootProtocol.MapIsRam | hyperpod/src/vmm/common/boot.rs:77-85 | to a kernel that reads the e820 map, an address is usable memory exactly when it lies at or above 1 MiB and in RAM, and the map names nothing else |
| BootProtocol.ParamsAreFound | hyperpod/src/vmm/common/boot.rs:67-75 | the boot parameters as bytes at the addresses of the boot protocol: HdrS, boot flag, version, loader, alignment, and the command line found by its pointer and size |
| BootProtocol.SegmentsAreFound | hyperpod/src/vmm/common/boot.rs:34-47 | the segment descriptors at 0x500 and the empty interrupt table at 0x520 |
| BootProtocol.KernelFindsAll | hyperpod/src/vmm/linux/vm.rs:56-61 | after the boot sequence with a high kernel: parameters, segments, the identity map under CR3 = 0x9000 and the map of memory, all in literal addresses |
| BootSequence.WritersDoNotInterfere | hyperpod/src/vmm/linux/vm.rs:56-59 | the four writers, in this order on zeroed RAM, leave each other's artefacts intact and everything else zero |
| BootSequence.KernelFrame | hyperpod/src/vmm/linux/vm.rs:61 | loading the kernel changes nothing its segments do not cover |
| BootSequence.LoadingLeavesGuestReady | hyperpod/src/vmm/linux/vm.rs:56-61 | after the kernel is loaded: the kernel in place, the identity map and each artefact intact if the kernel image avoids its bytes, zeros elsewhere |
| BootSequence.HighKernelBoots | hyperpod/src/vmm/linux/vm.rs:56-61 | with the kernel at or above 1 MiB and the command line ending by 1 MiB, all of it holds unconditionally |
| BootSequence.PrepareGuest | hyperpod/src/vmm/linux/vm.rs:35-61 | the whole sequence succeeds exactly when RAM, command line and kernel allow it, and then `GuestReady` holds |
| Scaling.FromLimits | hyperpod/src/scaling/mod.rs:21-29 | a validated configuration gives an ordered range and thresholds that do not overlap |
| Scaling.ThereAndBack | hyperpod/src/scaling/mod.rs:21-29 | for every validated limits, 56 ticks of load at or above 0.80 take the monitor from its floor to the configured maximum and 56 at or below 0.20 take it back to the configured minimum |
| Scaling.LimitsAreReached | hyperpod/src/scaling/mod.rs:21-29 | the same from any shares within the limits, in four ticks for each power of two of their distance |
| Scaling.MovesIff | hyperpod/src/scaling/mod.rs:86-95 | exactly which ticks raise and which lower the shares, with the configured limits and thresholds |
| Scaling.BetweenIsStill | hyperpod/src/scaling/mod.rs:93-95 | loads strictly between 0.20 and 0.80 leave the shares alone for as long as they last |
| Scaling.FirstTick | hyperpod/src/scaling/mod.rs:86-89 | an instance: 256 shares become 704 |
| Scaling.Monitor.constructor | hyperpod/src/scaling/mod.rs:38-43 | a new monitor is at the floor |
| Scaling.Monitor.TickOnce | hyperpod/src/scaling/mod.rs:77-105 | shares and sink calls of one tick under any probe and sink failure; range and agreement with the sink are kept |
| Scaling.Monitor.RunLoop | hyperpod/src/scaling/mod.rs:63-75 | after any run the shares are those of the tick map, every offer was in range, and once the sink accepted anything its value is the monitor's |
| Scaling.SinkWritesWeights | hyperpod/src/scaling/probes.rs:70 | whatever it is offered the sink writes a value in 1..=10000, and changes only what is not one |
| Scaling.SinkClampIsIdentity | hyperpod/src/scaling/probes.rs:70 | for a validated configuration the sink's clamp changes nothing |
| Scaling.FourHighTicksHalveHeadroom | hyperpod/src/scaling/mod.rs:86-89 | any four high-load ticks at least halve the headroom |
| Scaling.FourLowTicksHalveSlack | hyperpod/src/scaling/mod.rs:90-92 | any four low-load ticks at least halve the slack |
| Scaling.HighLoadReachesMax | hyperpod/src/scaling/mod.rs:86-89 | 4k high-load ticks reach the maximum from any headroom below 2^k, and further ones stay there |
| Scaling.LowLoadReachesMin | hyperpod/src/scaling/mod.rs:90-92 | the mirror claim |
| Scaling.NextMonotone | hyperpod/src/scaling/mod.rs:86-95 | the tick map is monotone in shares and load and 1-Lipschitz in shares |
| Scaling.QuarterStepIff | hyperpod/src/scaling/mod.rs:88-92 | the step is the floored quarter of the distance exactly when that is zero or at least four, 25% of it exactly when four divides it, and one share below four |
| Scaling.LastShareIsWhole | hyperpod/src/scaling/mod.rs:88-89 | an input at which it is neither |
| Scaling.RunsPreserveOrder | hyperpod/src/scaling/mod.rs:77-105 | with the same failures, pointwise larger loads and start give larger shares |
| Scaling.GapNeverGrows | hyperpod/src/scaling/mod.rs:77-105 | under the same ticks the gap between two starts never grows |
| Vhd.VhdFixedBackend.OpenFile | hyperpod/src/vmm/common/storage/vhd.rs:25-78 | opening answers what `Open` says of the bytes |
| Vhd.VhdFixedBackend.ReadSector | hyperpod/src/vmm/common/storage/vhd.rs:86-96 | reading answers what `Step` says |
| Vhd.VhdFixedBackend.WriteSector | hyperpod/src/vmm/common/storage/vhd.rs:98-111 | writing does to the file what `Step` says |
| Vhd.StepAnswers | hyperpod/src/vmm/common/storage/vhd.rs:86-111 | the answer and the effect of one operation in literal offsets: sector before length, then the 512 bytes at its place |
| Vhd.WriteIsLocal | hyperpod/src/vmm/common/storage/vhd.rs:108-110 | a sector write is seen by that sector alone and by nothing after the payload |
| Vhd.RunRefinesDisk | hyperpod/src/vmm/common/storage/vhd.rs:86-111 | every run answers as a plain map of sectors does and never touches the bytes after the payload |
| Vhd.ReopenAfterRun | hyperpod/src/vmm/common/storage/vhd.rs:25-78 | after any run the file opens again to the same sectors with the contents of the map, and is still detected as a fixed VHD by its extension |
| Vhd.OpenedFitsIff | hyperpod/src/vmm/common/storage/vhd.rs:57-77 | an opened disk fits its file exactly when the size in the footer is not 2^64 - 512 |
| Vhd.RunLeavesFooter | hyperpod/src/vmm/common/storage/vhd.rs:98-111 | on a disk that fits its file every run leaves the length and the 512 footer bytes as they were |
| Vhd.FooterSafeIff | hyperpod/src/vmm/common/storage/vhd.rs:16-18 | the footer bytes are untouched by every run exactly when the size in them does not wrap; so is the answer of a reopen |
| Vhd.CookieOverwritten | hyperpod/src/vmm/common/storage/vhd.rs:98-111 | the run that breaks it otherwise |
| Vhd.WrappingSizeOpens | hyperpod/src/vmm/common/storage/vhd.rs:61 | a file whose size wraps, and the sector count it opens with |
| Bytes.DecodeEncodeBE | hyperpod/src/vmm/common/storage/vhd.rs:57 | big-endian decoding inverts encoding for every value the width holds |
| Layouts.FooterDecidesOpen | hyperpod/src/vmm/common/storage/vhd.rs:40-77 | what opening answers for every footer, field by field in its layout: wrong cookie, types 3 and 4 (dynamic, differencing) and unknown types, sizes zero, too large and unaligned, and the sectors otherwise |
| Layouts.NoFooterNoDisk | hyperpod/src/vmm/common/storage/vhd.rs:32-34 | files too short for a footer, opened or detected |
| Layouts.FooterDecidesFormat | hyperpod/src/vmm/common/storage/mod.rs:38-87 | what detection answers for every footer, by the extension and by the bytes |
| Storage.ExtensionDecides | hyperpod/src/vmm/common/storage/mod.rs:40-48 | the extensions that decide, in any mixture of cases, and their answers; every other extension leaves it to the bytes |
| Storage.UpperCaseVhd | hyperpod/src/vmm/common/storage/mod.rs:42-44 | an input: .VHD over bytes without the cookie is an error |
| Layouts.FixedVhdOpens | hyperpod/src/vmm/common/storage/vhd.rs:57-77 | every whole-sector payload followed by a fixed footer of its size opens, as exactly its sectors |
| Vhd.DetectAgreesWithOpen | hyperpod/src/vmm/common/storage/mod.rs:69-87 | with the extension, every openable disk is detected as fixed, and a detected one opens exactly when its size is a positive multiple of 512 that fits the file with the footer, or is the wrapping size 2^64 - 512 |
| Storage.ExtensionAgreesWithBytesIff | hyperpod/src/vmm/common/storage/mod.rs:38-67 | exactly when the answer found by extension is what the bytes alone say |
| Storage.VhdxByNameOnly | hyperpod/src/vmm/common/storage/mod.rs:45 | an input whose format is taken from its name alone |
| Storage.DetectFailsIff | hyperpod/src/vmm/common/storage/mod.rs:38-87 | exactly when detection is an error without an I/O failure |
| Storage.EmptyVhdFails | hyperpod/src/vmm/common/storage/mod.rs:72-74 | an input for which it is |
| Vhd.DetectWithoutExtensionIff | hyperpod/src/vmm/common/storage/mod.rs:49-66 | without a recognised extension an openable disk is detected as fixed exactly when its payload does not begin with the VHDX magic |

## Left out

- The WHPX and KVM backends, vCPU set-up, the serial port, the command line, configuration parsing and the GPU policy: calls into code outside the repository, or plumbing.
- The load probes and the operating-system sinks, beyond the clamp: a probe's answer and a sink's acceptance are inputs of each tick. Loads are real numbers; a NaN, which satisfies neither threshold, behaves as a load between them.
- Threads, locks, sleeping and atomics: the guest does not change memory during one pop; the driver acts between pops.
- The raw backend and the `open` dispatcher: the sector refinement without a footer, and a match on the detected format.
- Host I/O errors other than reaching past the largest file offset or the end of the file, a failing RAM allocation, and running out of memory for a zero fill larger than RAM (which the model reports as the failing write it precedes).
- `is_write_only`, `flush` and the counters' plain getters: easy members.
- Behaviour the device does not have: reset by writing zero to the status, a limit of queue size by queue maximum, used-ring updates, indirect descriptors.
- Message texts: errors are kinds with the index they name.
- VirtioMmio.Write32: does not say that `last_avail_idx` is reset when a queue is configured again, because the code does not reset it.
