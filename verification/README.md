# Hyperupcall: a verified model

The repository carries hints about CPU affinity from a guest to its host. A host program injects a
BPF program into the guest through a virtual PCI device; the guest's driver and daemon receive and
load it; the BPF program logs every affinity mask the guest sets; the daemon drains that log and
passes the masks back through the device, which binds the vCPU threads. The benchmark that shows the
effect is a lock-free single-producer/single-consumer queue. This project models these parts and
proves properties of them over every input, every run or every interleaving.

| module | models |
|---|---|
| `LamportRing` | the queue of `spscq.h` as a machine whose steps are single loads and stores |
| `BlqQueue` | the same queue as an object, each call running alone |
| `SlotMap` | the (shuffled) slot table behind `SMAP` |
| `MbufPool` | the producer and consumer loops, the recycled mbuf pool, the checksum |
| `HucTransfer` | host message, device buffer, driver read machine, daemon copy loop |
| `Irq` | interrupt status, pin, handler and acknowledgement |
| `MaskLog` | the BPF map shared by the kprobe program and the daemon's drain |
| `Affinity` | ioctl, register write and the vCPU affinity table |
| `Hyperthread` | the older device's remapping of sibling hyperthreads |
| `Cover`, `Tsc`, `Scans` | cache-line prediction, clock conversion, power-of-two scans |
| `Bits`, `ModArith`, `Wrappers` | machine words as naturals, positions on a ring, optional values |

## How runs are modelled

A run is an arbitrary sequence of moves, each a single step of one thread, so a statement about
`Run(Init(...), sched)` for every `sched` is a statement about every reachable state of every
interleaving. Shared memory is sequentially consistent. In `LamportRing` each load or store of
`read`, `write` or a slot is one step; in `MaskLog` each BPF call of the daemon is one step and a
kprobe hit is atomic. The state of a machine carries a history (calls' answers, masks recorded) that
no step reads; `MemoryHoldsPending` and `Conservation` tie it to the real state.

Calls into code outside the repository are parameters: the outcomes of `std::shuffle`
(`SlotMap.Shuffles`), the first contents of allocated device memory, the host kernel's acceptance of
a CPU set (`Affinity.Kernel`, `Hyperthread.Host`), the number of host CPUs.

## What the proofs found

- The shuffled or plain slot table is a permutation only up to 65536 slots, and a shuffled one only
  for whole cache lines (`SlotMap.PermutationIff`).
- The device masks buffer addresses to 16 bits although its buffer is four times larger, so a file
  survives injection for sure only up to 65516 bytes (`HucTransfer.SafeLengths`); an empty payload
  leaves the driver's flag at 1, so the daemon receives the empty message a second time without an
  interrupt (`HucTransfer.EmptyArrivesTwice`).
- `PROGRAM_INJECTION_AFFINITY` shares a bit with `PROGRAM_INJECTION`, so an interrupt raised while
  another is being acknowledged can be swallowed or misread: exactly how depends on the value the
  handler had read (`Irq.InjectionInWindow`, `Irq.AffinityInWindow`, `Irq.WindowsReached`).
- The drain begins at key 64, which the map does not have: that lookup fails and the count itself is
  delivered as a mask (`MaskLog.QuietPass`). It runs from the newest entry to the oldest, so
  within a pass the oldest request wins (`Affinity.LastPassOldestRequest`).
- A mask logged while the daemon is between reading and clearing the same key is lost, and that is
  the only way the daemon loses one unseen (`MaskLog.ErasedExactly`). Some run does lose it
  (`MaskLog.LossIsReached`); none does if hits fall between iterations of the drain
  (`MaskLog.ConservedBetweenIterations`) or ahead of it (`MaskLog.AheadLosesNothing`).
- A mask logged at a key that the running pass has already read can be overwritten later; in every
  run all lost masks are of that kind (`MaskLog.LossesAreBehind`, `MaskLog.OverwriteIsReached`).
- The daemon's reads store whole words, so a complete receive stores past the bytes it allocated
  exactly if the payload length is not a multiple of 4 (`HucTransfer.Driver.RecvBytecode`).
- The smallest mbuf pool that is never rewritten in flight is the one main allocates
  (`MbufPool.PoolSizeIff`).
- The remapping loop rewrites the CPU set it is testing, so an odd CPU can pin several vCPUs
  (`Hyperthread.SpillsIff`): one more each time its distance to the last paired CPU can be halved
  (`Hyperthread.PinsHowMany`).
- At tick rates from 10^9 to 2^63, nanosecond conversion is accurate within one nanosecond exactly
  while the 64-bit product does not overflow (`Tsc.AccurateIff`); below 10^9 it can lose more even
  without overflow (`Tsc.RoundTrip`).

## Model

| member | source | states |
|---|---|---|
| `LamportRing.Linearizable` | guestend/simplified-spscq/spscq.h:126-154 | for every power-of-two length, slot permutation and interleaving, the answers of all calls, in the order of their deciding steps, are a legal history of a sequential FIFO queue holding at most qlen - 1 values |
| `LamportRing.Fifo` | guestend/simplified-spscq/spscq.h:126-154 | the values read are a prefix, in order, of the values written, at most qlen - 1 behind: nothing lost, duplicated, reordered or read early |
| `LamportRing.ReplayConserves` | guestend/simplified-spscq/spscq.h:126-154 | any legal queue history conserves values: written = read followed by still queued |
| `LamportRing.MemoryHoldsPending` | guestend/simplified-spscq/spscq.h:126-154 | in every reachable state `write` and `read` are the numbers of values written and read modulo qlen, and each value not yet read lies in the remapped slot of its number |
| `LamportRing.ExactAnswers` | guestend/simplified-spscq/spscq.h:129-137 | a call answers full (empty) exactly if qlen - 1 (no) values are pending at the instant it loads the other side's index |
| `LamportRing.NoSlotRace` | guestend/simplified-spscq/spscq.h:135-151 | while the producer may store into a slot, no pending value lives there and the consumer is not about to load it |
| `LamportRing.FullTest` | guestend/simplified-spscq/spscq.h:130-134 | the masked successor of `write` meets `read` exactly when the ring holds qlen - 1 values |
| `LamportRing.ProducerStepInv` | guestend/simplified-spscq/spscq.h:126-139 | every producer step keeps ring and reference queue in agreement; only publishing enqueues |
| `LamportRing.ConsumerStepInv` | guestend/simplified-spscq/spscq.h:141-154 | every consumer step keeps them in agreement; only the index publish dequeues |
| `LamportRing.RemappingInvisible` | guestend/simplified-spscq/spscq.h:61-64 | under every schedule the ring over any slot permutation gives the same answers, indices and control states as the ring over the identity |
| `BlqQueue.Blq.constructor` | guestend/simplified-spscq/spscq.cpp:350-359 | zeroed queue memory |
| `BlqQueue.Blq.BlqInit` | guestend/simplified-spscq/spscq.h:112-124 | succeeds exactly on the powers of two from 2 on, giving an empty queue, and otherwise changes nothing |
| `BlqQueue.Blq.LqWrite` | guestend/simplified-spscq/spscq.h:126-139 | running alone: appends and returns 0 if fewer than qlen - 1 values are queued, else returns -1 and leaves the queue alone |
| `BlqQueue.Blq.LqRead` | guestend/simplified-spscq/spscq.h:141-154 | running alone: returns and removes the oldest value, or returns 0 on an empty queue |
| `BlqQueue.WriteCallSpec` | guestend/simplified-spscq/spscq.h:126-139 | the whole write call enqueues on the reference queue or meets the full test |
| `BlqQueue.ReadCallSpec` | guestend/simplified-spscq/spscq.h:141-154 | the whole read call dequeues from the reference queue or meets the empty test |
| `Bits.ClearLowestBit` | guestend/simplified-spscq/spscq.h:67-71 | x & (x - 1) is 0 exactly for the powers of two |
| `Bits.AndMask` | guestend/simplified-spscq/spscq.h:130 | masking with 2^k - 1 is reduction modulo 2^k |
| `Bits.BitOfAnd` | guestend/simplified-spscq/spscq.h:130 | a bit of an AND is set exactly if both operands have it |
| `Bits.BitIs` | qemu-patch/hucdev.c:301 | bit i of n is the parity of n / 2^i, the bit that CPU_ISSET tests |
| `SlotMap.QslotmapInit` | guestend/simplified-spscq/spscq.cpp:293-331 | the loops write x mod 2^16 at place x without a shuffle and (8 * order[x / 8] + within[x / 8][x % 8]) mod 2^16 with one, and leave the tail behind the last whole line alone |
| `SlotMap.TableIs` | guestend/simplified-spscq/spscq.cpp:293-331 | the same of the table the other results speak of |
| `SlotMap.PlainTable` | guestend/simplified-spscq/spscq.cpp:296-300 | up to 65536 slots the plain table is the identity |
| `SlotMap.PermutationIff` | guestend/simplified-spscq/spscq.cpp:293-331 | for every length from 2 on and every shuffle outcome the table is a permutation if and only if the length is at most 65536 and, when shuffling, a multiple of 8 |
| `SlotMap.BlocksAreLines` | guestend/simplified-spscq/spscq.cpp:310-330 | a shuffled table sends each block of 8 places onto exactly one whole cache line |
| `SlotMap.RingOverTable` | guestend/simplified-spscq/spscq.cpp:464-467 | such a table configures the ring, and under every schedule answers, indices and control states are those of the identity ring; without a shuffle it is the identity ring, state for state |
| `MbufPool.Checksum` | guestend/simplified-spscq/spscq.cpp:333-347 | with any power-of-two pool larger than the queue and under every interleaving, after k packets csum is k(k-1)/2 mod 2^32 and pkt_cnt is k (k + 1 while a packet is being put) mod 2^64, also after pool_idx has wrapped |
| `MbufPool.PacketAddresses` | guestend/simplified-spscq/spscq.cpp:163-168 | in every run packet i is sent at base + 4160 * (i mod pool), packets not yet put back carry their numbers, and the consumer's trash is the sum of the addresses it has put back |
| `MbufPool.NoReuseInFlight` | guestend/simplified-spscq/spscq.cpp:399-443 | with any such pool the mbuf that mbuf_get is about to rewrite is never queued, loaded or held by the consumer |
| `MbufPool.AtMostQlenOut` | guestend/simplified-spscq/spscq.cpp:455-462 | at most qlen mbufs are out when the next one is taken |
| `MbufPool.QlenOutIsReached` | guestend/simplified-spscq/spscq.cpp:455-462 | that bound is reached in some run, with one of the mbufs held by the consumer |
| `MbufPool.PoolSizeIff` | guestend/simplified-spscq/spscq.cpp:455-462 | for every queue length and every power-of-two pool that a 32-bit index can address: no run ever rewrites an mbuf in flight if and only if the pool has at least 2 * qlen mbufs |
| `MbufPool.MainConfigures` | guestend/simplified-spscq/spscq.cpp:455-462 | main's pool of 2 * qlen is such a pool for every queue length it can have |
| `MbufPool.SysStepInv` | guestend/simplified-spscq/spscq.cpp:399-443 | every step of either loop keeps packet numbering, pool contents, counters and the ring invariant, as long as mbuf_get finds an mbuf that is not out |
| `MbufPool.PoolIndex` | guestend/simplified-spscq/spscq.cpp:334-338 | the 32-bit pool index, masked, walks the circle of any power-of-two pool through every wrap |
| `MbufPool.Global.MbufGet` | guestend/simplified-spscq/spscq.cpp:333-341 | hands out the n-th mbuf of the circle and stamps it with n |
| `HucTransfer.RoundTripIff` | guestend/daemon.c:31-85 | for every file and device memory, the daemon saves exactly the host's file if and only if it has at most 65516 bytes, or at most 65535 with a tail that repeats the start of the device buffer |
| `HucTransfer.SafeLengths` | qemu-patch/hucdev.c:203-226 | the lengths at which every file survives are exactly 0..65516 |
| `HucTransfer.SavedIs` | qemu-patch/hucdev.c:203-226 | what is saved in general: the payload up to byte 65515, then the bytes behind the address mask, status register first |
| `HucTransfer.Prepare` | hostend/huc_msg.h:38-69 | the message has version 1 and type 1, its 16-bit length is the file length mod 2^16 and agrees with its payload, which is that prefix of the file |
| `HucTransfer.MaskedAddress` | qemu-patch/hucdev.c:208-209 | the address mask reduces addresses modulo 2^16 |
| `HucTransfer.ReadWordAt` | qemu-patch/hucdev.c:203-226 | an aligned read at address 0 delivers the status register, below 65536 the buffer, at 65536 the status register again, and later ones start over |
| `HucTransfer.ReadWordIs` | qemu-patch/hucdev.c:208-225 | at any address the low 16 bits choose the word, and word 0 is the status register |
| `HucTransfer.WordValue` | qemu-patch/hucdev.c:217-220 | the bytes of a status word, low byte first, are read back as its number |
| `HucTransfer.ServedReads` | guestend/driver/huc-driver.c:61-81 | the driver's state after any number of reads that it serves, from flag 0, 1 or 2 |
| `HucTransfer.Lockstep` | guestend/driver/huc-driver.c:61-81 | after every payload read the driver's payload_left is the daemon's, and its flag returns to 0 exactly on the daemon's last read |
| `HucTransfer.HucDev.constructor` | qemu-patch/hucdev.c:560-565 | a buffer of 262144 arbitrary bytes, no interrupt |
| `HucTransfer.HucDev.RaiseIrq` | qemu-patch/hucdev.c:149-154 | keeps the pin high exactly while a status bit is set |
| `HucTransfer.HucDev.LowerIrq` | qemu-patch/hucdev.c:156-161 | keeps the pin high exactly while a status bit is set |
| `HucTransfer.HucDev.BufMmioRead` | qemu-patch/hucdev.c:203-226 | delivers the word at the masked address; a read at any address whose low 16 bits are below 4 has the status as its value |
| `HucTransfer.HucDev.HandleMessage` | qemu-patch/hucdev.c:391-465 | stores header at byte 16 and payload at byte 20, the vCPU count at byte 22 of an affinity message, and nothing else; raises bit 0 for an injection and both bits for an affinity message, and no interrupt for other types |
| `HucTransfer.HandledFields` | qemu-patch/hucdev.c:391-465 | bytes 16 to 19 hold version, type and the length, low byte first, and bytes 22 and 23 of an affinity message the number of vCPUs, low byte first |
| `HucTransfer.HandledAt` | qemu-patch/hucdev.c:391-465 | the payload lies from byte 20 on, and every other byte is unchanged |
| `HucTransfer.Driver.constructor` | guestend/driver/huc-driver.c:32-35 | the driver starts asleep |
| `HucTransfer.Driver.IrqHandler` | guestend/driver/huc-driver.c:157-191 | reads the status word at address 0, sets the flag to 2 for 1 and 3 and to 1 for 22, and leaves no interrupt pending |
| `HucTransfer.Driver.HucRead` | guestend/driver/huc-driver.c:37-99 | one read: sleep, a wait ended by a signal, misalignment, header and payload cases, a failed copy to the reader |
| `HucTransfer.ReadAdvances` | guestend/driver/huc-driver.c:61-94 | what a read that gets a word does: header and payload reads alike return len, a header read sets payload_left to its length field, a payload read counts down |
| `HucTransfer.Driver.CopyLoop` | guestend/daemon.c:69-81 | in whatever state the driver is, the copy loop makes as many of its ceil(n / 4) reads as the driver serves, delivers that stream of words, and sleeps exactly if these are not all; with flag 2 the first word is taken for a header |
| `HucTransfer.Driver.RecvBytecode` | guestend/daemon.c:31-85 | in whatever state the driver is: sleeps at the header with flag 0; with flag 2 makes exactly ceil(n / 4) payload reads; with flag 1 its header read uses up one of the reads the driver still serves; what it stores exceeds the payload_len bytes it allocated if and only if it gets the whole message and payload_len is not a multiple of 4 |
| `HucTransfer.Inject` | guestend/daemon.c:194-206 | a whole injection wakes the daemon, saves what `Saved` describes, and for a non-empty payload leaves driver and pin at rest |
| `HucTransfer.EmptyArrivesTwice` | guestend/driver/huc-driver.c:70-81 | after an empty payload the daemon's next call does not sleep: it receives the same empty message again, and only then does the driver sleep |
| `Irq.PinFollowsStatus` | qemu-patch/hucdev.c:149-161 | in every run the pin is high exactly while irq_status is non-zero, irq_status is at most 3, and case 22 is never taken |
| `Irq.AckLeavesNewBits` | guestend/driver/huc-driver.c:160-190 | an acknowledgement leaves pending exactly the bits raised since the status read that were not in the value read |
| `Irq.InjectionInWindow` | guestend/driver/huc-driver.c:160-190 | in every run, an injection raised between status read and acknowledgement wakes the reader at the next interrupt if and only if the value read lacked bit 0 |
| `Irq.AffinityInWindow` | guestend/driver/huc-driver.c:160-190 | in every run, an affinity interrupt raised there is read at the next interrupt as 3 without the bits of the value read: it is recognised if and only if that value was 0, wakes the reader if and only if it lacked bit 0, and is swallowed if and only if it was 3 |
| `Irq.WindowsReached` | guestend/driver/huc-driver.c:160-190 | each of the values 0, 1, 2, 3 is read in some run |
| `MaskLog.Conservation` | guestend/daemon.c:256-301 | in every run each non-zero recorded mask is, as often as it was recorded, delivered, on its way to the ioctl, in the map, overwritten by a later push, or cleared unseen |
| `MaskLog.PushBalance` | guestend/bytecode.c:106-128 | a kprobe hit keeps that balance |
| `MaskLog.DrainBalance` | guestend/daemon.c:264-301 | every BPF call and ioctl of the drain keeps that balance |
| `MaskLog.WritesBackZero` | guestend/daemon.c:299-300 | in every run the count stays at most 63 and what the daemon writes back to key 0 is 0 |
| `MaskLog.ErasedExactly` | guestend/daemon.c:272-295 | in every run the masks cleared unseen, with the one about to be, are exactly the non-zero masks pushed between the daemon's lookup and its update of a key while that key was the next one of the log |
| `MaskLog.ConservedBetweenIterations` | guestend/daemon.c:270-297 | if hits fall only between iterations of the drain loop, every recorded mask is delivered, on its way to the ioctl, in the map, or overwritten by a later push; none is cleared unseen |
| `MaskLog.LossIsReached` | guestend/daemon.c:265-301 | for every non-zero mask some run clears it unseen |
| `MaskLog.AheadLosesNothing` | guestend/daemon.c:256-301 | if no mask is logged at a key the running pass has already read, nothing is overwritten or cleared unseen, and between passes with an empty log everything recorded has been delivered and the map is all zero |
| `MaskLog.LossesAreBehind` | guestend/daemon.c:256-301 | in every run each non-zero mask is overwritten or cleared unseen at most as often as it was logged at a key the running pass had already read |
| `MaskLog.OverwriteIsReached` | guestend/bytecode.c:106-128 | for every non-zero mask some run overwrites it undelivered |
| `MaskLog.QuietIsAhead` | guestend/daemon.c:256-301 | runs whose hits fall between passes are of that kind |
| `MaskLog.QuietPass` | guestend/daemon.c:265-301 | an undisturbed pass delivers the count, then the non-zero entries from key 63 down to 1, writes 0 back to key 0 and leaves an all-zero map |
| `MaskLog.MaskMap.constructor` | guestend/bytecode.c:38-50 | an array map of 64 zeros |
| `MaskLog.MaskMap.UpdateElem` | guestend/daemon.c:295 | a missing key is not created |
| `MaskLog.MaskMap.BpfProg1` | guestend/bytecode.c:106-128 | logs the mask at the next key, or drops it at 63 |
| `MaskLog.MaskMap.DrainPass` | guestend/daemon.c:265-301 | the loop makes exactly the deliveries of a quiet pass, whatever `value` held before |
| `Affinity.SetAffinity` | qemu-patch/hucdev.c:289-320 | binds exactly the vCPUs below 64 whose bit is set in the value written and whose binding the kernel accepts, to that value, and no others |
| `Affinity.LowBits` | guestend/driver/huc-driver.c:122-128 | the ioctl keeps exactly bits 0 to 31 of a mask |
| `Affinity.HitsIff` | qemu-patch/hucdev.c:299-306 | an ioctl binds a vCPU if and only if its number is below 32, the mask names it and the kernel accepts |
| `Affinity.LastWins` | qemu-patch/hucdev.c:289-320 | each vCPU ends with the last delivered mask that binds it: bit i of its set is set if and only if i is below 32 and the mask has it |
| `Affinity.NoneBinds` | qemu-patch/hucdev.c:289-320 | a vCPU bound by no delivered mask keeps its affinity |
| `Affinity.HighUntouched` | guestend/driver/huc-driver.c:116-129 | vCPUs from 32 on are never bound |
| `Affinity.OldestWins` | guestend/daemon.c:265-301 | after a quiet pass a vCPU is bound to the mask at the smallest key that hits it |
| `Affinity.CountWinsOtherwise` | guestend/daemon.c:265-301 | if no logged mask hits it, the spurious delivery of the count decides |
| `Affinity.LoggedIs` | guestend/bytecode.c:108-128 | the log keeps the first 63 masks in order and counts them |
| `Affinity.FirstRequestWins` | guestend/daemon.c:265-301 | in one pass over a log that started empty, the first of the first 63 masks that binds a vCPU decides |
| `Affinity.LastPassOldestRequest` | guestend/daemon.c:256-301 | end to end, in every run whose hits fall between passes, with any number of passes: when the daemon is idle each vCPU has the affinity asked for by the last batch that asks for any, which is its first binding mask among the first 63, or failing that the count |
| `Hyperthread.MapHyperthread` | qemu-patch/0001-Add-newdev-for-hyperupcall.patch:1232-1257 | turns the set {2k} into {k} and {2k + 1} into {k + nprocs / 2}, returning that CPU; leaves every other set alone and returns -1 |
| `Hyperthread.Siblings` | qemu-patch/0001-Add-newdev-for-hyperupcall.patch:1247-1252 | guest CPUs 2k and 2k + 1 go to host CPUs k and k + nprocs / 2 |
| `Hyperthread.SiblingsPinned` | qemu-patch/0001-Add-newdev-for-hyperupcall.patch:1589-1621 | on an accepting host mask {2k} leaves vCPU 2k at {k}, and mask {2k + 1} leaves vCPU 2k + 1 at {k + nprocs / 2} |
| `Hyperthread.PinLoop` | qemu-patch/0001-Add-newdev-for-hyperupcall.patch:1589-1621 | the loop over a set that is rewritten while it is tested, with remapping on or off and whatever sets the host accepts |
| `Hyperthread.RemapPermutesIff` | qemu-patch/0001-Add-newdev-for-hyperupcall.patch:1247-1252 | the remap permutes the host's CPUs if and only if their number is even (or one) |
| `Hyperthread.PinsExactlyTheOrbit` | qemu-patch/0001-Add-newdev-for-hyperupcall.patch:1589-1621 | with remapping on, a one-CPU mask pins exactly those vCPUs of the climbing orbit of that CPU whose own remap the host accepts, each to that remap |
| `Hyperthread.OrbitClimbs` | qemu-patch/0001-Add-newdev-for-hyperupcall.patch:1589-1621 | each vCPU of the orbit is the remap of the one before and larger than it |
| `Hyperthread.SpillsIff` | qemu-patch/0001-Add-newdev-for-hyperupcall.patch:1600-1615 | where the host accepts every remap and no vCPU is there already, a one-CPU mask changes more than its own vCPU if and only if the CPU is odd, not mapped to itself or below, and its remap is another vCPU |
| `Hyperthread.PinsHowMany` | qemu-patch/0001-Add-newdev-for-hyperupcall.patch:1600-1615 | there the number of vCPUs changed is one more than the number of times the distance from the CPU to the last paired CPU can be halved |
| `Hyperthread.OrbitHalves` | qemu-patch/0001-Add-newdev-for-hyperupcall.patch:1247-1252 | each climb of the orbit halves the distance to the last paired CPU |
| `Hyperthread.SeveralPinWhole` | qemu-patch/0001-Add-newdev-for-hyperupcall.patch:1589-1621 | a mask of several CPUs, or any mask with remapping off, binds each vCPU in it to the whole mask where the host accepts it |
| `Hyperthread.OtherSetsUnchanged` | qemu-patch/0001-Add-newdev-for-hyperupcall.patch:1245-1253 | sets of no or several CPUs pass unchanged |
| `Cover.CoveredCachelines` | guestend/simplified-spscq/cover.cpp:6-25 | the nested scan counts exactly the lines that start at or before L and hold a slot of the batch, for every batch, line size and bound |
| `Cover.LinesAreCovered` | guestend/simplified-spscq/cover.cpp:6-25 | that number in closed form, cut-off batches included |
| `Cover.PredictionError` | guestend/simplified-spscq/cover.cpp:38-53 | for an uncut batch the count is last line - first line + 1 and the prediction is 0 or 1 above it, with the exact condition for 0 |
| `Cover.PredictionIsUpperBound` | guestend/simplified-spscq/cover.cpp:83-86 | the prediction is never too low, cut or not |
| `Cover.CoverCheck` | guestend/simplified-spscq/cover.cpp:27-60 | the enumeration of cover() never reports a wrong formula, and its total error is 896 |
| `Cover.RollMisses` | guestend/simplified-spscq/cover.cpp:74-78 | the rolling total is the sum over the batches and at most ceil((L - ofs) / b) predictions |
| `Cover.RollIsSum` | guestend/simplified-spscq/cover.cpp:74-78 | the rolling total is the sum over the ceil((L - ofs) / b) batches at ofs, ofs + b, ofs + 2b, ... |
| `Cover.RollBound` | guestend/simplified-spscq/cover.cpp:72-113 | the integer form of that upper bound for all L, b, K and offsets |
| `Cover.RollCheck` | guestend/simplified-spscq/cover.cpp:62-121 | in exact arithmetic roll() never reports a wrong upper bound, in any of its 2080 cases |
| `Tsc.RoundTrip` | guestend/simplified-spscq/mlib.c:78-88 | without overflow the exact loss of converting to ticks and back, at every rate |
| `Tsc.FastClock` | guestend/simplified-spscq/mlib.c:78-88 | at 10^9 ticks per second or more the result is ns or ns - 1, and when it is which |
| `Tsc.AnyClock` | guestend/simplified-spscq/mlib.c:78-88 | at any positive rate the result is at most ns and greater than ns - 10^9 / f - 1 |
| `Tsc.AccurateIff` | guestend/simplified-spscq/mlib.c:78-88 | for rates from 10^9 to 2^63 the result is ns or ns - 1 if and only if ns * f fits in 64 bits |
| `Tsc.Rounding` | guestend/simplified-spscq/mlib.c:78-88 | each conversion is the floor of its product, wrapped at 64 bits, over the divisor |
| `Scans.FindPosition` | guestend/daemon.c:119-137 | the exponent of a power of two, -1 for everything else |
| `Scans.Ilog2` | guestend/simplified-spscq/spscq.cpp:108-124 | 2^ret <= x < 2^(ret + 1) |

## Left out

- Weak memory: `compiler_barrier` orders nothing in hardware; steps are sequentially consistent.
- The `stop` flag of producer and consumer: a stopped thread is one that is not scheduled again, and the results hold of every prefix of a run.
- `lq_producer` and `lq_consumer` as loops: their bodies are the steps of `MbufPool.SysStep`, since an endless loop under interference has no result of its own.
- `SPSCQ_ALIGNED_SIZE`, `blq_size`, huge pages, rate statistics, `tsc_init`: layout, timing and foreign calls.
- MbufPool.Checksum: consumer addresses are natural numbers from a non-zero base; pointer width does not matter because pointers are only stored, loaded and compared with null.
- Interleavings inside one `bpf_prog1` call: a kprobe hit is atomic.
- The kprobe's own `bpf_probe_read`: the mask it reads is a parameter.
- Partial socket transfers, unreadable files and failed allocations: whole messages arrive, and `fread` returns the bytes it was asked for.
- HucTransfer.Inject: no second injection arrives during the transfer (the device has no flow control), and an earlier unserved status of at most 3 is the only interrupt state it starts from.
- HucTransfer.HucDev.HandleMessage: the effects of `RESET`, `PIN_ON_SAME` and `HT_REMAPPING` messages on vCPUs and on the remapping switch are not modelled, only that they store their bytes and leave the interrupt alone.
- The doorbell path (`IOCTL_PROGRAM_INJECTION_RESULT_READY`) and plain stores into the device buffer: they only copy words.
- Irq.PinFollowsStatus: guest writes to the raise register are not among the moves, because the driver makes none.
- `fork`, `kill`, `load_bpf_file` and the printing in the daemon: operating-system behaviour and user interface.
- Cover.RollCheck: the original computes rates in double precision; the model uses exact arithmetic.
- Cover.CoveredCachelines: `int` overflow is not modelled; the program's constants stay far below it.
- `newdev`'s sockets, the affinity stress programs, the Python drivers and plotting: no logic to prove here.
