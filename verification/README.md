# Proofs about the devices, decoder and memory layer of `here`

`here` is a RISC-V full-system emulator. This project models the parts of it whose correctness
is not visible in any single function and proves what they promise over every input, every run
or every reachable state. Everything stateful is modelled as in the source, as a class whose
methods change its fields, and each such class is tied to a simpler description that does not
mention the implementation:

| file | component | described by |
|---|---|---|
| `Virtqueue.dfy` | split virtqueue, worker channel and reset as one protocol | logs of everything published, taken, served and completed |
| `DescriptorChain.dfy` | descriptor-chain walking with indirect tables | paths in the descriptor graph, and re-entered tables |
| `BlockDisk.dfy` | block requests on the image | an ideal disk: the last byte stored at each position |
| `VirtioBlockDevice.dfy` | the block device on guest memory | refinement of the protocol in `Virtqueue.dfy`, with the disk of `BlockDisk.dfy` behind it |
| `VirtioMmio.dfy` | VirtIO MMIO registers | the log of register writes |
| `Plic.dfy` | platform-level interrupt controller | "best eligible source", and a gateway automaton per source |
| `Decoder.dfy` | funct tables, mask lists and the whole decoder | "some descriptor with word & mask == key" and "most specific match" |
| `Clint.dfy` | CLINT and the shared timer list | `mtime >= mtimecmp` |
| `CsrFile.dfy` | CSR file, write validators, shadows, privilege table | masks over whole runs of checked writes |
| `Reservations.dfy` | LR/SC/AMO over RAM | the log of accesses since the load |
| `SpiFlash.dfy`, `SpiController.dfy`, `SpiHost.dfy` | W25Q512 NOR flash, SiFive SPI controller, and a host driving one through the other | replay of completed writes; bus traces |
| `VectorRegFile.dfy` | segment writes to vector register groups | a transposition |
| `Caches.dfy` | direct-mapped and set-associative cache, cached decode | an unbounded map |
| `MulDiv.dfy` | M-extension arithmetic | exact integer products and truncating division |
| `Uart.dfy` | UART receive path and interrupt causes | accepted = delivered + held + waiting; causes by presence and rank |

Bytes that are combined bitwise are bit-vectors; all other words are unbounded integers with the
source's wrap-around written out (`% 2^16`, `% 2^64`, ...). Files are byte sequences, channels are
bounded FIFOs, and the two sides of a channel take atomic steps.

## Where the code does something else than its description

Each of these is stated as it is in the code, with a concrete input and the exact condition.

- A queue size that does not divide 2^16 lets a wrapped index overwrite an entry that was not taken
  (`Virtqueue.OrderKeptIffSizeDivides`).
- An INDIRECT entry inside an indirect table restarts the walk's budget, so the walk need not end:
  it ends if and only if it does not enter the same indirect table twice
  (`DescriptorChain.EndsIffNoReentry`, `DescriptorChain.NestedIndirectLoops`).
- Storing the low half of a ring address in the MMIO transport clears the high half
  (`VirtioMmio.AddressKeptIff`). The same holds for a 32-bit store to the low half of `mtimecmp`
  (`Clint.Device.CompareHalves`), but not for `mtime` (`Clint.Device.TimeHalves`).
- A funct-table entry wins over a more specific entry of the mask list
  (`InstructionDecoder.MostSpecificIffNoneShadowed`).
- The timer deadline is reduced modulo 2^64, which raises the interrupt at once when `mtime` was set
  below the clock and the compare value is far away (`Clint.LevelCorrectIff`, `Clint.SpuriousLevel`).
- The range check of `mtvec.MODE` covers three bits instead of two, so a vector base whose lowest
  bit is set keeps the old mode (`CsrFile.TrapModeTakenIff`).
- Comments say that every SC ends the reservation; one whose address does not translate does not
  (`Reservations.Memory.StoreConditional`, `Reservations.PageFaultKeepsReservation`). Data copied
  into RAM by a device goes unnoticed by a reservation (`Reservations.CopyGoesUnnoticed`); what the
  conditional store then finds are the loaded bytes overlaid with exactly the later copies
  (`Reservations.AccountedAfter`).
- A register group of 3, 5, 6 or 7 registers can pass the alignment check and run past the last
  register (`VectorRegFile.GroupsFitIff`).
- Putting an address that is already in the set-associative cache can leave the older entry visible,
  at once or after an invalidation, and address zero is also the tag of empty ways. Every later hit
  is right if and only if the put overwrites the way that holds the address, and for address zero
  goes to the first way (`SetCaches.PutRightIff`; `SetCaches.OlderFound`,
  `SetCaches.InvalidatedFound`, `SetCaches.ZeroGoesWrong`).
- A store to the UART's line status register that changes data-ready loses or invents a byte
  (`Uart.LineStatusStoreIff`, `Uart.LineStatusStoreFails`).

## Model

| member | source | states |
|---|---|---|
| Rings.IndexSlot | src/device/virtio/virtio_queue.rs:184-194 | when the ring size divides 2^16, the wrapped 16-bit index selects the same slot as the unbounded count |
| Virtqueue.StepKeepsInv | src/device/virtio/virtio_block.rs:589-671 | every step of driver, device and worker (set up, publish, receive, take and submit, take and reject, serve, begin and end of reset) keeps the protocol invariant |
| Virtqueue.EveryRun | src/device/virtio/virtio_queue.rs:447-480 | in every interleaving: heads are taken in publish order, taken = completed + in the channel as multisets, used.idx is the number of completions mod 2^16, the channel holds at most 1024 requests, the worker serves in submission order, and only requests of the current reset epoch are in flight |
| Virtqueue.QuiescentRun | src/device/virtio/virtio_block.rs:665-671 | once nothing can be taken and the channel is empty, every published head has exactly one used entry |
| Virtqueue.ResetDrains | src/device/virtio/virtio_block.rs:512-534 | when the barrier has been answered no request is in flight, every taken head was completed before, and the queue is cleared |
| Virtqueue.OverwrittenHead | src/device/virtio/virtio_queue.rs:184-194 | for every size that does not divide 2^16 there is a run in which a head is taken that is not the next published one |
| Virtqueue.OrderKeptIffSizeDivides | src/device/virtio/virtio_queue.rs:184-194 | publish order is kept in all runs with one queue size if and only if the size divides 2^16 |
| DescriptorChain.DescHandle.GetIndirect | src/device/virtio/virtio_queue.rs:89-118 | an entry that refers to a valid table switches to entry 0 of that table with a fresh budget; otherwise nothing changes |
| DescriptorChain.DescHandle.TryGet | src/device/virtio/virtio_queue.rs:124-155 | one step of the walk: the location yielded and the new position, or no location and the walk is over |
| DescriptorChain.StepAdvances | src/device/virtio/virtio_queue.rs:124-155 | a yielded location extends a path of the graph, and the budget left is the table's length less the entries visited since it was entered |
| DescriptorChain.StepEnds | src/device/virtio/virtio_queue.rs:124-155 | the walk stops only at the end of a chain, at a bad entry, or with its budget used up |
| DescriptorChain.EndsIffNoReentry | src/device/virtio/virtio_queue.rs:89-155 | from every position of every memory the walk ends if and only if it does not enter the same indirect table twice |
| DescriptorChain.WalkChain | src/device/virtio/virtio_queue.rs:459-470 | when it ends, cyclic links included, it yields a path of the graph with every index in bounds and every buffer inside guest RAM, never longer than the budget of the tables entered, and stops only at the end of a chain, a bad entry or an exhausted budget |
| DescriptorChain.WalkUnique | src/device/virtio/virtio_queue.rs:124-155 | no other path from the head within the budget is longer, so the walk yields all there is |
| DescriptorChain.NoNestedEnds | src/device/virtio/virtio_queue.rs:89-155 | without an INDIRECT entry inside an indirect table the walk ends for every head |
| DescriptorChain.NoNestedSplits | src/device/virtio/virtio_queue.rs:89-155 | it then has a part in the main table and a part in one indirect table, each no longer than its table |
| DescriptorChain.ChainDistinct | src/device/virtio/virtio_queue.rs:124-155 | a chain that ends never visits a location twice |
| DescriptorChain.ChainFits | src/device/virtio/virtio_queue.rs:47-54 | the budget is never used up before the end of a chain without nested tables |
| DescriptorChain.WholeChain | src/device/virtio/virtio_queue.rs:124-155 | if a chain starts at the head, the walk returns exactly that chain: the budget cuts off cycles only |
| DescriptorChain.NestedIndirectLoops | src/device/virtio/virtio_queue.rs:89-118 | a memory with a nested INDIRECT entry on which the walk never ends |
| BlockDisk.RequestOffsetInBounds | src/device/virtio/virtio_block.rs:478-495 | a request is accepted if and only if its bytes lie inside the capacity and data plus status fit 32 bits, and the offset is then sector times 512: no overflow check rejects more |
| BlockDisk.WriteBuffers | src/device/virtio/virtio_block.rs:350-368 | writing the buffers one by one equals one write of their concatenation |
| BlockDisk.BlockWorker.Read | src/device/virtio/virtio_block.rs:320-348 | an accepted IN request fills the buffers in order from the image, succeeds, and reports data plus status as its length |
| BlockDisk.BlockWorker.Write | src/device/virtio/virtio_block.rs:350-368 | an accepted OUT request stores the concatenated buffers at the offset and nothing else; the image keeps its length |
| BlockDisk.DiskIsLastStored | src/device/virtio/virtio_block.rs:350-368 | after any stores the image has its original length and holds at each position the byte stored last |
| BlockDisk.GatherAt | src/device/virtio/virtio_block.rs:350-368 | gathered data is the buffers' bytes one after another |
| BlockDisk.GatherScatter | src/device/virtio/virtio_block.rs:320-348 | scattering data over disjoint buffers and gathering it again gives the data |
| BlockDisk.ScatterElsewhere | src/device/virtio/virtio_block.rs:320-348 | scattering changes nothing outside the buffers |
| VirtioBlockDevice.TaskFor | src/device/virtio/virtio_block.rs:640-661 | IN becomes a read and OUT a write inside the disk, or an early error exactly when the bounds check fails; flush and every other type become their own tasks |
| VirtioBlockDevice.ParseChain | src/device/virtio/virtio_block.rs:600-639 | request type and sector come from the first descriptor, the data buffers are the descriptors in between, in chain order and inside RAM, and there is a status address exactly when the chain has a tail of at least one byte |
| VirtioBlockDevice.BuildTask | src/device/virtio/virtio_block.rs:589-663 | for every head whose walk ends: a task exactly when the chain has a status descriptor, describing the chain the walk yields, with all buffers in RAM and all bytes inside the disk |
| VirtioBlockDevice.WorkUnique | src/device/virtio/virtio_block.rs:589-663 | guest memory and head determine the task |
| VirtioBlockDevice.WorkForAsk | src/device/virtio/virtio_block.rs:589-663 | in guest memory that spells a request, header code 0 becomes a read and code 1 a write of sector times 512 into or from exactly its buffers, or an early error off the disk; code 4 a flush, and no other code is supported |
| VirtioBlockDevice.DirectRequest | src/device/virtio/virtio_block.rs:589-639 | header, data and status in three linked entries of the table spell a request |
| VirtioBlockDevice.StandardWalksEnd | src/device/virtio/virtio_queue.rs:459-470 | in guest memory without nested tables every head's walk ends |
| VirtioBlockDevice.ReadSeesImage | src/device/virtio/virtio_block.rs:320-348 | an executed IN request leaves the image's bytes in its disjoint buffers, the status byte written after them included |
| VirtioBlockDevice.ReadReturnsLastStored | src/device/virtio/virtio_block.rs:285-368 | after any accepted stores those are the bytes stored last at each position |
| VirtioBlockDevice.RoundTrip | src/device/virtio/virtio_block.rs:285-368 | in any sequence of served requests, an IN request returns the data of an earlier OUT request that covers its range, if no request in between stores into that range |
| VirtioBlockDevice.AskServed | src/device/virtio/virtio_block.rs:207-368 | the effect of a request by its code: only an accepted write stores, the status byte is 0, 1 or 2 for success, off the disk and not supported, and the length reported is data plus status for a read and one otherwise |
| VirtioBlockDevice.TakeRefines | src/device/virtio/virtio_queue.rs:424-436 | comparing the two 16-bit indices finds an entry exactly when one is untaken, and the slot read is the oldest untaken head |
| VirtioBlockDevice.SubmitRefines | src/device/virtio/virtio_block.rs:589-663 | advancing the index and sending the request is the protocol's take-and-submit step |
| VirtioBlockDevice.RejectRefines | src/device/virtio/virtio_queue.rs:447-480 | advancing the index and writing a zero-length used entry is the take-and-reject step |
| VirtioBlockDevice.ServeRefines | src/device/virtio/virtio_queue.rs:294-302 | writing the used entry and bumping used.idx is the protocol's serve step |
| VirtioBlockDevice.BlockDevice.ManageOneRequest | src/device/virtio/virtio_block.rs:589-663 | one request is taken exactly when the protocol allows it, as a submit or a reject step; it is submitted exactly when the oldest untaken head describes a task, and then with that task |
| VirtioBlockDevice.BlockDevice.Notify | src/device/virtio/virtio_block.rs:665-671 | a notification takes heads in order until none is left, and sends the tasks these heads describe, in that order |
| VirtioBlockDevice.BlockDevice.RunTask | src/device/virtio/virtio_block.rs:285-318 | the worker's effect on RAM, image and store log, status byte included, and the length to report |
| VirtioBlockDevice.BlockDevice.ServeOne | src/device/virtio/virtio_block.rs:285-318 | the oldest task is executed on RAM and image, its store is logged, and it is completed with its length: one serve step |
| VirtioBlockDevice.BlockDevice.ServeDownTo | src/device/virtio/virtio_block.rs:262-278 | serving on is a run of the protocol, with RAM and image as after exactly the tasks served, in order |
| VirtioBlockDevice.BlockDevice.Reset | src/device/virtio/virtio_block.rs:512-534 | reset terminates with every request taken before it completed in the used ring before the queue is cleared, and nothing left that could still complete |
| VirtioBlockDevice.BlockDevice.Perform | src/device/virtio/virtio_block.rs:589-671 | publishing a head that describes a task, notifying and serving changes RAM and image by exactly that task |
| VirtioBlockDevice.BlockDevice.PerformAsk | src/device/virtio/virtio_block.rs:589-671 | the same for a request as the driver lays it out in memory |
| VirtioBlockDevice.BlockDevice.WriteThenRead | src/device/virtio/virtio_block.rs:285-368 | end to end from guest memory through rings, worker and image: after a request with header code 1, a request with header code 0 inside its range brings back the data written, with status 0 |
| VirtioMmio.AgreedIsAcceptable | src/device/virtio/virtio_block.rs:548-557 | in every log of register writes, features that were agreed contain VERSION_1 and are a subset of those offered |
| VirtioMmio.AddressKeptIff | src/device/virtio/virtio_mmio.rs:98-106 | the transport holds the 64-bit address the driver wrote if and only if no low half came after a non-zero high half |
| VirtioMmio.LowAfterHighLosesHigh | src/device/virtio/virtio_mmio.rs:98-106 | a concrete driver sequence that loses the high half |
| VirtioMmio.Configured | src/device/virtio/virtio_queue.rs:365-417 | a queue is ready exactly when its size is not zero and its three rings lie aligned inside guest RAM, and its rings are then where the addresses say |
| VirtioMmio.Transport.WriteStatus | src/device/virtio/virtio_mmio.rs:393-406 | the new status: bits accumulate, unknown bits are refused, zero resets; kept: FEATURES_OK is set exactly when the last negotiation since reset succeeded, and the accepted features are then those the driver wrote |
| VirtioMmio.Transport.WriteDriverFeatures | src/device/virtio/virtio_mmio.rs:306-313 | the selected 32-bit word of the 128 feature bits is replaced; invariant kept |
| VirtioMmio.Transport.WriteAddress | src/device/virtio/virtio_mmio.rs:407-436 | the selected queue's ring address follows the write log; invariant kept |
| VirtioMmio.Transport.WriteQueueNum | src/device/virtio/virtio_mmio.rs:322-337 | sizes from 1 to the maximum are stored in the selected queue, others ignored; an enabled queue never has size zero |
| VirtioMmio.Transport.EnableSelected | src/device/virtio/virtio_mmio.rs:340-373 | a store of 0 or 1 switches the selected queue, unless it would enable one without a size; a queue of the device becomes enabled exactly when its rings then lie inside RAM |
| VirtioMmio.Transport.WriteQueueReady | src/device/virtio/virtio_mmio.rs:340-373 | in every run an enabled queue is ready, its rings are where the log of address writes says, and they lie inside RAM as long as QueueNum is not changed afterwards |
| VirtioMmio.StatusMeans | src/device/virtio/virtio_mmio.rs:393-406 | which status bits a store adds, keeps and refuses |
| VirtioMmio.Negotiate | src/device/virtio/virtio_mmio.rs:306-406 | writing four feature words and FEATURES_OK keeps that bit exactly for an offered set with VERSION_1, which is then accepted |
| VirtioMmio.SetUpQueue | src/device/virtio/virtio_mmio.rs:322-436 | size, low and high address halves and ready make the queue ready exactly for a legal size and rings that lie aligned in RAM, and place them at the 64-bit addresses written |
| PlicRegisters.DecodeRegister | src/device/plic/mod.rs:271-319 | a decoded register exists and has the decoded address |
| PlicRegisters.DecodeFindsRegister | src/device/plic/mod.rs:271-319 | every existing register is found at its address, so decoding is a bijection |
| Plic.SortOrder | src/device/plic/mod.rs:126-133 | the order is a permutation of all sources, by descending priority, then ascending id |
| Plic.PlicLayout.WritePriority | src/device/plic/mod.rs:119-133 | exactly one priority changes and the cached order is again sorted |
| Plic.PlicLayout.WriteEnableWord | src/device/plic/mod.rs:168-182 | exactly the sources of that word change, source zero stays disabled, other contexts do not change |
| Plic.PlicLayout.FindPendingInterrupt | src/device/plic/mod.rs:237-268 | the early-exit scan returns the best eligible source (highest priority, lowest id; threshold only when notifying) and none exactly when none is eligible |
| Plic.PlicLayout.SetSourceLevel | src/device/plic/mod.rs:145-156 | a request is accepted exactly on a high level of an idle source; keeps: pending and busy are disjoint, a high level implies pending or busy, the bits agree with the gateway automaton |
| Plic.PlicLayout.ReadClaim | src/device/plic/mod.rs:204-211 | a claim returns the best eligible source regardless of threshold, or zero, and moves it from pending to busy |
| Plic.PlicLayout.WriteComplete | src/device/plic/mod.rs:217-226 | a completion counts only for an enabled source in service, and re-arms a source whose level is still high |
| Plic.RequestsConserved | src/device/plic/mod.rs:145-226 | per source, in every run: accepted = claimed + pending and claimed = completed + in service |
| Plic.BetweenClaims | src/device/plic/mod.rs:204-226 | between two claims of a source lie a completion and after it a newly accepted request |
| Plic.PlicDevice.SyncPeripheralIrqLevels | src/device/plic/mod.rs:454-465 | every registered source takes its device's level, the others keep theirs |
| Plic.PlicDevice.UpdateContextIrqLine | src/device/plic/mod.rs:467-509 | the context's line is high exactly when a source above its threshold is eligible, and other contexts' lines do not change |
| FieldBits.MatchIffAt | src/isa/utils.rs:21-30 | for masks inside the opcode and funct fields, word & mask == key says the same as agreement of the three fields |
| FieldBits.SubmasksAll | src/isa/riscv/decoder/funct_decoder.rs:148-209 | the submask loop enumerates exactly the submasks of the free funct7 bits |
| FieldBits.SubmasksDistinct | src/isa/riscv/decoder/funct_decoder.rs:148-209 | and each of them once |
| FunctDecoder.Decoder.MakeDense | src/isa/riscv/decoder/funct_decoder.rs:39-55 | turning a sparse slot dense changes no lookup |
| FunctDecoder.Decoder.WithF7 | src/isa/riscv/decoder/funct_decoder.rs:114-137 | adding a funct7 entry changes exactly that lookup, in either representation |
| FunctDecoder.Decoder.InsertF3F7 | src/isa/riscv/decoder/funct_decoder.rs:114-137 | exactly one cell of the table changes |
| FunctDecoder.Decoder.InsertSubmasks | src/isa/riscv/decoder/funct_decoder.rs:148-209 | exactly the cells for the key combined with every submask change |
| FunctDecoder.Decoder.TryInsert | src/isa/riscv/decoder/funct_decoder.rs:148-209 | a descriptor is accepted exactly when its mask has one of the five shapes, and the table then knows it at exactly the field values it matches |
| FunctDecoder.ShapesAsNumbers | src/isa/riscv/decoder/funct_decoder.rs:148-209 | the five shapes as mask numbers, with at least five fixed bits of funct7 in the partial one |
| FunctDecoder.DisjointNotYet | src/isa/riscv/decoder/funct_decoder.rs:148-209 | a descriptor that overlaps no inserted one finds its cells free |
| FunctDecoder.RecognizeIs | src/isa/riscv/decoder/funct_decoder.rs:211-220 | the table recognises a word as a descriptor with word & mask == key, and as nothing exactly when none matches |
| MaskDecoder.FromIsa | src/isa/riscv/decoder/mask_decoder.rs:33-57 | the list is the input reordered by descending number of mask bits |
| Descriptors.PopCountIsBits | src/isa/riscv/decoder/mask_decoder.rs:47 | the size of a mask is the number of its set bits |
| Descriptors.SubmaskIsSmaller | src/isa/riscv/decoder/mask_decoder.rs:47 | a mask that fixes strictly more bits is larger |
| Descriptors.StackPointerBeforeLui | src/isa/riscv/decoder/compress_decoder.rs:185-205 | C.ADDI16SP, not C.LUI, is the best answer for a word that matches both |
| MaskDecoder.Decode | src/isa/riscv/decoder/mask_decoder.rs:19-31 | the first match is a most specific match, no matching entry has a mask that strictly contains its mask, and there is none exactly when nothing matches |
| InstructionDecoder.LengthsKeptApart | src/isa/riscv/mod.rs:30-55 | compressed and full-length descriptors never match the same word |
| InstructionDecoder.FillTable | src/isa/riscv/decoder/mod.rs:85-111 | the table represents exactly the descriptors with a funct shape, the rest goes to the mask list |
| InstructionDecoder.Decoder.FromIsa | src/isa/riscv/decoder/mod.rs:85-111 | the three decoders together represent all descriptors |
| InstructionDecoder.Decoder.Decode | src/isa/riscv/decoder/mod.rs:113-122 | the answer is the matching table entry if there is one, else a match of the lists whose mask no other match strictly contains, and none exactly when no descriptor matches; short words are cut to 16 bits |
| InstructionDecoder.OrderDoesNotMatter | src/isa/riscv/decoder/mod.rs:85-111 | the answer is the same for every insertion order if table entries are disjoint and overlapping list entries differ in mask size |
| InstructionDecoder.MostSpecificIffNoneShadowed | src/isa/riscv/decoder/mod.rs:113-122 | the decoder always returns the most specific match if and only if no list entry is shadowed by a less specific table entry |
| InstructionDecoder.ShadowExample | src/isa/riscv/decoder/mod.rs:113-122 | two descriptors for which it does not |
| Timers.Timer.Build | src/clock.rs:69-71 | the list is a permutation sorted by due time |
| Timers.Timer.SetDue | src/clock.rs:130-149 | exactly that task's deadline changes and the list stays sorted; an unknown id changes nothing |
| Timers.Timer.Tick | src/clock.rs:95-107 | exactly the tasks whose deadline has passed fire, and they are disarmed |
| Clint.Device.UpdateTimer | src/device/aclint.rs:60-70 | the line is high exactly when mtimecmp <= mtime, and otherwise the deadline is scheduled |
| Clint.Device.WriteTimeCmp | src/device/aclint.rs:126-141 | a store at offset 0 sets all of mtimecmp, one at offset 4 its high half, others nothing, and the timer is re-armed |
| Clint.Device.WriteTime | src/device/aclint.rs:142-170 | the stored value is the time from then on, for 32- and 64-bit stores to either half |
| Clint.Device.ReadTime | src/device/aclint.rs:56-58 | mtime is the value last stored plus the clock ticks since, mod 2^64 |
| Clint.Device.Tick | src/device/aclint.rs:184-189 | after every tick of every run the line equals the level of what was armed last: stale deadlines are harmless, and the line is low before the first store |
| Clint.LevelCorrectIff | src/device/aclint.rs:60-70 | that level is mtime >= mtimecmp if and only if the deadline fits 64 bits or had passed; once mtime has overflowed, if and only if it caught up again |
| Clint.SpuriousLevel | src/device/aclint.rs:60-70 | setting mtime to 0 and mtimecmp to the largest value raises the line at once |
| Clint.Device.CompareStored | src/device/aclint.rs:126-141 | after a 64-bit store to mtimecmp, at every later tick the line is high exactly when mtime has reached the stored value, as long as neither mtime nor the deadline overflows |
| Clint.Device.TimeStored | src/device/aclint.rs:142-170 | after a 64-bit store to mtime the time runs on from the stored value and the line follows it, under the same condition |
| Clint.Device.CompareHalves | src/device/aclint.rs:126-141 | two 32-bit stores set mtimecmp if and only if the low half is stored first or the high half is zero |
| Clint.Device.TimeHalves | src/device/aclint.rs:142-170 | two 32-bit stores set all of mtime in either order |
| CsrFields.OpIsWritable | src/isa/riscv/csr_reg/write_validator.rs:79-91 | the combined validators never let a write change a bit outside the declared writable fields |
| CsrFields.WritableIsVisible | src/isa/riscv/csr_reg/read_validator.rs:29-44 | what can be written through a shadow register is visible through it |
| CsrFile.WrittenWithin | src/isa/riscv/csr_reg/mod.rs:352-393 | a write changes one register at most, its target, and there only bits in reach of the address |
| CsrFile.MachineConfined | src/isa/riscv/csr_reg/mod.rs:316-322 | no run of writes checked below machine level changes a machine register outside the bits of mstatus, mie, mip that sstatus, sie, sip show |
| CsrFile.MachineUnchanged | src/isa/riscv/csr_reg/mod.rs:316-322 | every other machine register comes through such a run unchanged |
| CsrFile.ExposedStatus | src/isa/riscv/csr_reg/csr_macro.rs:259-273 | the exposed bits of mstatus, as a number; MIE, MPIE, MPP, MPRV, TVM, TW and TSR are not among them |
| CsrFile.ReservedBitsKept | src/isa/riscv/csr_reg/csr_macro.rs:199-478 | in every run of checked writes at any levels, reserved and read-only bits of every register but fcsr keep their value |
| CsrFile.ShadowReadBack | src/isa/riscv/csr_reg/mod.rs:232-239 | a shadow register reads back the written word on the bits both validators accept and its old value elsewhere |
| CsrFile.FloatParts | src/isa/riscv/csr_reg/mod.rs:352-417 | fflags and frm are independent parts of fcsr that read back what was written |
| CsrFile.FixedPointParts | src/isa/riscv/csr_reg/mod.rs:366-404 | the same for vxsat and vxrm in vcsr |
| CsrFile.TrapModeTakenIff | src/isa/riscv/csr_reg/csr_macro.rs:409-412 | mtvec always takes the base, and takes the mode if and only if the low three bits are 0 or 1 or the mode does not change |
| CsrFile.TrapModeLost | src/isa/riscv/csr_reg/csr_macro.rs:409-412 | a concrete store that leaves vectored mode on |
| CsrFile.LastEntryLevel | src/isa/riscv/csr_reg/mod.rs:61-105 | the last table entry at or below an address carries the level in address bits 9:8 |
| CsrFile.CsrRegFile.IsReadPrivLegal | src/isa/riscv/csr_reg/mod.rs:277-297 | the binary search allows a read exactly when the level reaches address bits 9:8 and satp is not trapped by TVM |
| CsrFile.CsrRegFile.IsWritePrivLegal | src/isa/riscv/csr_reg/mod.rs:299-305 | a write additionally needs an address below 0xC00 |
| CsrReadBack.ReadBack | src/isa/riscv/csr_reg/csr_macro.rs:199-478 | what every register but mtvec and fcsr reads after a write: the written word on the bits of a mask given per register as a number, and its old value elsewhere |
| CsrReadBack.WholeReadBack | src/isa/riscv/csr_reg/csr_macro.rs:299-452 | scratch, exception pc, cause, trap value, stvec and satp registers take every word |
| CsrReadBack.FcsrReadBack | src/isa/riscv/csr_reg/mod.rs:352-393 | fcsr keeps the low byte of the written word |
| CsrReadBack.ReadShows | src/isa/riscv/csr_reg/mod.rs:396-417 | a register reads as stored, and sstatus, sie, sip, cycle and instret as numbered bits of the register behind them |
| CsrFile.CsrRegFile.ReadChecked | src/isa/riscv/csr_reg/mod.rs:307-313 | a legal read gives the register, for shadows base & view mask; an illegal one nothing |
| CsrFile.CsrRegFile.WriteChecked | src/isa/riscv/csr_reg/mod.rs:315-322 | the register file after a checked write, as used by the run theorems |
| CsrFile.CsrRegFile.WriteUnchecked | src/isa/riscv/csr_reg/mod.rs:352-393 | the special sub-registers, plain registers and shadows as one specification |
| Reservations.Memory.LoadReserved | src/isa/riscv/mmu/mod.rs:102-117 | succeeds exactly for aligned, translated RAM addresses, returns the bytes there and reserves their 8-byte granule; failures change nothing |
| Reservations.Memory.StoreConditional | src/isa/riscv/mmu/mod.rs:119-140 | succeeds exactly on a held reservation of its granule, then stores exactly its bytes over a granule that holds what the load saw overlaid with later device copies; ends the reservation in every case but a page fault |
| Reservations.Memory.Store | src/ram.rs:174-187 | the bytes stored and the error cases; an in-range store ends a reservation of its granule even when misaligned |
| Reservations.Memory.FetchAndOp | src/isa/riscv/mmu/mod.rs:143-180 | returns the old bytes, stores the operation's result, ends an overlapping reservation |
| Reservations.AgreesAfter | src/ram.rs:150-202 | the reservation register stands, after every access, for "a load of this granule with nothing since that ends it" |
| Reservations.AccountedAfter | src/ram.rs:150-202 | in every run each granule that stays reserved holds what the load saw, overlaid with exactly the device copies since |
| Reservations.UntouchedOverlaid | src/ram.rs:194-202 | without a copy into the granule that is what the load saw |
| Reservations.AlignedInGranule | src/utils.rs:162-198 | an aligned access of any width lies in one granule |
| Reservations.OneSuccessPerLoad | src/ram.rs:156-172 | between two attempts of which the later succeeds there is a load of that granule, so a load supports at most one success |
| Reservations.CopyGoesUnnoticed | src/ram.rs:194-202 | a run in which the conditional store succeeds over bytes the load never saw |
| Reservations.PageFaultKeepsReservation | src/isa/riscv/mmu/mod.rs:119-140 | a run in which a conditional store fails with a page fault and a later one succeeds on the same load |
| FlashImage.LastStreamedAt | src/device/spi/w25q512.rs:451-468 | only the last byte streamed to a page offset counts, with wrap-around at the page end |
| FlashImage.NoneStreamed | src/device/spi/w25q512.rs:451-468 | offsets that get no byte are programmed with the erased value |
| FlashImage.UncoveredKept | src/device/spi/w25q512.rs:225-252 | a byte outside every programmed page and erased block is still the initial one |
| FlashImage.OnlyEraseSetsBits | src/device/spi/w25q512.rs:225-242 | without an erase no bit of a byte goes from 0 to 1, whatever was programmed |
| FlashImage.EraseMeans | src/device/spi/w25q512.rs:244-252 | an erase sets exactly the bytes below the capacity in the block of its address |
| FlashImage.ProgramInside | src/device/spi/w25q512.rs:451-468 | in its page a program operation makes each byte old & last byte sent to its offset |
| FlashImage.ProgramOutside | src/device/spi/w25q512.rs:451-468 | outside its page and past the capacity it changes nothing |
| FlashImage.ProgrammedAfterErase | src/device/spi/w25q512.rs:225-252 | data programmed into an erased block, without passing the page end, is stored as sent |
| SpiFlash.Flash.EraseRange | src/device/spi/w25q512.rs:244-252 | exactly the aligned block, cut at the capacity, becomes erased |
| SpiFlash.Flash.WriteNorBytes | src/device/spi/w25q512.rs:225-242 | exactly the addressed bytes below the capacity become old & new |
| SpiFlash.Flash.ProgramImage | src/device/spi/w25q512.rs:451-468 | each byte of the one page becomes old & last streamed byte, nothing else changes |
| SpiFlash.Flash.StartCommand | src/device/spi/w25q512.rs:278-352 | keeps the gating invariant: a write in progress has the latch set, the image is the replay of the commits, and commits plus the set latch never exceed the write-enable commands; a chip erase is its only commit and needs the latch |
| SpiFlash.Flash.Transfer | src/device/spi/w25q512.rs:509-607 | for every byte in every state: next transaction, at most one commit, only with the latch set, which it clears; the latch is set only by WRITE_ENABLE; the answer is the status, identification or image byte due |
| SpiFlash.Flash.SetSelected | src/device/spi/w25q512.rs:609-615 | deselecting commits exactly a page program with data and then clears the latch; selecting starts afresh |
| SpiFlash.Flash.FinishStatusWrite | src/device/spi/w25q512.rs:470-492 | the status registers take the written bytes, and the latch is never left set |
| SpiController.Controller.UpdateSelectedChip | src/device/spi/spi_sifive.rs:203-219 | the old chip is deselected, the new one selected, all others left alone |
| SpiController.Controller.SetCsid | src/device/spi/spi_sifive.rs:221-225 | keeps: every chip sees alternating select edges, and is selected exactly when the registers select it |
| SpiController.Controller.SetCsmode | src/device/spi/spi_sifive.rs:227-231 | the same for the mode register |
| SpiController.Controller.SetFmt | src/device/spi/spi_sifive.rs:345-347 | bit 2 of the format register reverses the bit order and bit 3 turns reception off |
| SpiController.Controller.TransferByte | src/device/spi/spi_sifive.rs:266-287 | exactly the selected chip is clocked, with the byte in the configured bit order |
| SpiController.Controller.ReadRxData | src/device/spi/spi_sifive.rs:289-297 | received bytes are delivered in order and none is lost from the FIFO |
| SpiController.Controller.AttachSlave | src/device/spi/spi_sifive.rs:165-187 | only a free slot takes a chip, which sees its select edge if already selected |
| SpiController.EdgesAlternate | src/device/spi/spi_sifive.rs:203-231 | a chip selected twice was deselected in between |
| SpiController.ClockedWhileSelected | src/device/spi/spi_sifive.rs:266-287 | a byte reaches a chip only between its select and its deselect edge |
| SpiHost.Exchange | src/device/spi/spi_sifive.rs:266-297 | one byte through transmit and receive register reaches exactly the selected chip and brings back its answer, in either bit order |
| SpiHost.AddressSpelled | src/device/spi/w25q512.rs:393-395 | three or four address bytes are read most significant byte first |
| SpiHost.OpcodeCollects | src/device/spi/w25q512.rs:278-352 | the read, program and erase opcodes, their address widths and their block sizes, as numbers |
| SpiHost.ImmediateMeans | src/device/spi/w25q512.rs:278-352 | the effect of write enable and disable, address width and reset opcodes |
| SpiHost.HostProgram | src/device/spi/w25q512.rs:509-615 | through the controller's registers, for both program commands and address widths: write enable, opcode, address and data bytes and deselect program exactly that data at the number the address bytes spell, and no other chip changes |
| SpiHost.HostErase | src/device/spi/w25q512.rs:509-615 | the same for the five sector and block erase commands: exactly the aligned block of 4096, 32768 or 65536 bytes around the address the bytes spell |
| SpiHost.HostChipErase | src/device/spi/w25q512.rs:278-352 | both chip erase opcodes erase all of the chip and of no other |
| SpiHost.HostReset | src/device/spi/w25q512.rs:266-272 | the two reset opcodes in order clear latch and four-byte addressing |
| SpiHost.HostReadStatus | src/device/spi/w25q512.rs:509-607 | the three status opcodes bring back the three registers and change nothing |
| SpiHost.StatusRoundTrip | src/device/spi/w25q512.rs:470-492 | the second and third status register read back as written |
| SpiHost.HostReadId | src/device/spi/w25q512.rs:509-607 | the identification is ef 40 20 |
| SpiHost.HostReadSignature | src/device/spi/w25q512.rs:438-449 | the parameter table starts with its signature |
| SpiHost.HostSetWidth | src/device/spi/w25q512.rs:278-352 | the chip changes between three and four address bytes, and nothing is written |
| SpiHost.HostRead | src/device/spi/w25q512.rs:509-615 | through the controller's registers, for the four read commands and both address widths: the bytes received are the chip's image in order from the number the address bytes spell, erased bytes past the end, and nothing is written |
| SpiHost.EraseProgramRead | src/device/spi/w25q512.rs:509-615 | erase, page program and read through the registers give the data back, whatever the chip held before |
| VectorRegFile.RegFile.Write | src/cpu/vector_reg_file.rs:68-102 | accepted exactly when lmul * seg <= 8 and the first register is aligned; then every byte of the groups is the matching byte of its element and all other registers are unchanged |
| VectorRegFile.RegFile.ReadGroup | src/cpu/vector_reg_file.rs:22-46 | readable exactly for aligned groups of 1, 2, 4 or 8 registers, giving their bytes in order |
| VectorRegFile.SegmentRead | src/cpu/vector_reg_file.rs:68-102 | the write is a transposition: element e of field f reads back as element e * seg + f of the data, for every lmul, seg and element size |
| VectorRegFile.GroupsFitIff | src/cpu/vector_reg_file.rs:76-82 | the checks keep every group inside the file if and only if it has 1, 2, 4 or 8 registers |
| DirectCaches.DirectCache.Get | src/isa/cache.rs:111-114 | a hit is exactly an address that was put with no clear and no use of its slot since, and gives what an unbounded map would |
| DirectCaches.DirectCache.Invalidate | src/isa/cache.rs:122-124 | the same for invalidation, which also drops another address in the slot |
| DirectCaches.HitIsIdeal | src/isa/cache.rs:111-119 | a hit is the last put of the address, not invalidated or cleared since |
| SetCaches.SetCache.Get | src/isa/cache.rs:199-206 | the first way with the tag answers; after safe puts a hit is exactly an entry that was not invalidated and has seen fewer than W later inserts in its set, and it is what an unbounded map holds |
| SetCaches.SetCache.Put | src/isa/cache.rs:147-157 | replaces the oldest entry of the set, for every address; kept as long as puts are safe: the invariant from which every hit is right |
| SetCaches.SetCache.Invalidate | src/isa/cache.rs:159-164 | empties the first way with the tag, for every address; the invariant is kept |
| SetCaches.LookupIsCached | src/isa/cache.rs:199-206 | under the invariant a lookup hits exactly the live entries among the last W inserts |
| SetCaches.SafeKeepsInv | src/isa/cache.rs:147-211 | every safe put, every invalidation and every clear keeps the invariant |
| SetCaches.PutRightIff | src/isa/cache.rs:147-211 | in every run of safe operations: all later hits after a put are what an unbounded map holds, whatever safe operations follow, if and only if the put is safe, that is, no way but the one it overwrites holds the address, and address zero goes to the first way |
| SetCaches.OlderFound | src/isa/cache.rs:199-211 | two puts of an address into an empty two-way set after which a lookup returns the older data |
| SetCaches.InvalidatedFound | src/isa/cache.rs:147-206 | three puts and an invalidation after which a lookup returns the invalidated data |
| SetCaches.ZeroGoesWrong | src/isa/cache.rs:147-206 | address zero behind the first way: operations after which a lookup returns its data although it was invalidated |
| CachedDecode.Core.DecodeAt | src/isa/riscv/executor.rs:319-331 | cached decode equals uncached fetch and decode for every address whose bytes are unchanged since the last flush |
| CachedDecode.Core.FlushIcache | src/isa/riscv/executor.rs:377-380 | after a flush that is every address |
| MulDiv.UnsignedProduct | src/isa/riscv/instruction/exec_function.rs:266-293 | MULHU and MUL recombine to the exact product, for every width |
| MulDiv.SignedProduct | src/isa/riscv/instruction/exec_function.rs:322-334 | MULH and MUL recombine to the exact signed product |
| MulDiv.MixedProduct | src/isa/riscv/instruction/exec_function.rs:336-349 | MULHSU and MUL recombine to the exact mixed product |
| MulDiv.ProductsFit | src/utils.rs:85-106 | no intermediate product overflows 128 bits |
| MulDiv.Truncates | src/isa/riscv/instruction/exec_function.rs:351-402 | the remainder is smaller than the divisor and has the dividend's sign |
| MulDiv.SignedDivision | src/isa/riscv/instruction/exec_function.rs:351-402 | quotient * divisor + remainder is the dividend mod 2^w in every case, division by zero and overflow included |
| MulDiv.UnsignedDivision | src/isa/riscv/instruction/exec_function.rs:370-418 | the same for the unsigned operations, exactly when the divisor is not zero |
| MulDiv.DivisionByZero | src/isa/riscv/instruction/exec_function.rs:351-418 | division by zero gives all ones and the dividend as remainder |
| MulDiv.SignedRemainder | src/isa/riscv/instruction/exec_function.rs:386-402 | the stored remainder is the true one for every non-zero divisor |
| MulDiv.SignedQuotientIff | src/isa/riscv/instruction/exec_function.rs:351-368 | the stored quotient is the true one if and only if it is not the most negative word over -1 |
| MulDiv.WordForms | src/isa/riscv/instruction/exec_function.rs:450-534 | the W forms are the 32-bit operations on the low words, sign-extended, in every case |
| MulDiv.SignExtendKeeps | src/utils.rs:108-117 | sign extension keeps the signed reading |
| Uart.Device.PushInput | src/device/uart16550a/io.rs:40-53 | the channel takes a prefix of the offered bytes and refuses only when full |
| Uart.IdentifyIff | src/device/uart16550a/mod.rs:48-100 | the tests of the identification register find a cause if and only if it is enabled, present and of the highest rank among those, and none exactly when there is none |
| Uart.IdentificationBits | src/device/uart16550a/mod.rs:48-100 | the identification register shows the rank of the cause, whether any is pending, and the FIFO bits |
| Uart.AcknowledgeOnly | src/device/uart16550a/mod.rs:103-170 | the read that acknowledges a cause removes it and leaves every other cause present or absent as it was |
| Uart.StatusBits | src/device/uart16550a/reg.rs:341-392 | which status bits receiving, acknowledging and resetting change |
| Uart.Device.UpdateRxStatus | src/device/uart16550a/mod.rs:121-132 | held byte and channel keep their joint contents, and nothing waits behind an empty buffer |
| Uart.Device.IrqLevel | src/device/uart16550a/mod.rs:249-254 | the line is high exactly when an enabled cause is present, and whenever received data waits with its interrupt enabled |
| Uart.Device.ReadByte | src/device/uart16550a/mod.rs:145-170 | the value, and the status without exactly the cause that this register acknowledges; the held byte is delivered exactly by a read of the receive buffer |
| Uart.Device.Read | src/device/uart16550a/mod.rs:136-175 | kept: accepted input = delivered, then held, then waiting bytes, in order, and the data cause is set exactly with data-ready; a read of the receive buffer delivers the oldest byte, settings read as stored, and data-ready shows whether anything waits |
| Uart.Device.WriteByte | src/device/uart16550a/mod.rs:185-240 | the settings, status, causes and output after a store; a transmitter byte goes out at once; the receive books change only by a receiver reset or a line-status store that changes data-ready |
| Uart.Device.Write | src/device/uart16550a/mod.rs:177-243 | the same for a write of several registers, settings stored in order |
| Uart.SettingReadBack | src/device/uart16550a/reg.rs:457-489 | a stored setting reads back as written and changes no other, divisor latch included |
| Uart.DivisorLatch | src/device/uart16550a/reg.rs:457-489 | bit 7 of the line control register sends stores at offsets 0 and 1 to the divisor |
| Uart.TransmitterEvent | src/device/uart16550a/mod.rs:103-119 | from reset: enabling the transmitter interrupt raises the line, reading the identification names it and lowers the line, and sending a byte raises it again |
| Uart.ReceiveEvent | src/device/uart16550a/mod.rs:121-231 | from reset: two received bytes raise the line, the status shows data-ready, the first is read, the line stays high for the second, and a receiver reset discards it |
| Uart.LineStatusStoreIff | src/device/uart16550a/mod.rs:207 | a store to the line status register keeps conservation if and only if it keeps data-ready |
| Uart.LineStatusStoreFails | src/device/uart16550a/mod.rs:207 | a store that loses the held byte, and one that invents a byte |

## Left out

- The page-table walk, TLB and trap controller: translation is a parameter of the LR/SC/AMO methods and only known to keep the page offset.
- Instruction execution other than the M extension, the vector instructions, and SoftFPU: the decoder takes arbitrary descriptor tables with the disjointness the source assumes.
- The byte layout of descriptors, request headers and rings: they are read as records.
- Host file and channel errors, threads and memory ordering: worker and device take atomic steps, files are byte sequences.
- Writes to the block device's configuration space, which could change the capacity; interrupt status and acknowledge registers of the VirtIO transport; access widths of the MMIO dispatchers.
- More than one hart: the CLINT model has one compare register and line, the LR/SC model one reservation. The software-interrupt register is left out because it only copies a bit.
- SiFive SPI registers that only store their value, protocol and length bits of the frame format, and the watermark interrupt bits.
- Setters and single-register stores have no row of their own: their contracts give the whole new state, and the results that use them are listed.
- Hit counters of the caches, and the NullCache.
- The debugger's and the typed register API's direct CSR writes: the run theorems are about writes by CSR instructions.
- Plain shift and addition instructions: they would only add easy members.
- DescriptorChain.WalkChain: requires that the walk ends, because a method that does not end has no contract here; DescriptorChain.EndsIffNoReentry says exactly when it does. The same holds for the block device's methods that walk.
- SetCaches.SetCache.Get: a hit is claimed to be right only while all puts were safe; SetCaches.PutRightIff says why no more is true. The executor uses the direct-mapped cache, which has no such condition.
- VectorRegFile.RegFile.Write: requires enough data and registers once its checks have passed, where the source panics; VectorRegFile.GroupsFitIff says when the registers suffice.
- Uart.Device.Read: returns the register bytes as a sequence instead of one little-endian word.
- VirtioMmio.Transport.WriteQueueNum: a queue size changed while the queue is enabled is outside the claim that an enabled queue lies inside RAM, as VirtIO 1.2 section 4.2.2 forbids drivers to do that.
