# Verified models of modm drivers and tools

A Dafny model of the parts of modm whose correctness is hard to see by reading: a zero-copy
Ethernet driver over two DMA rings, the ELF to UF2 converter, an interrupt-driven UART on a
queue, two pseudo random number generators and the disk self-test built on one of them, an
in-place firmware update, a concurrent register write, and the copyright header tool. Every
file verifies with Dafny 4.11; `dafny verify dfyconfig.toml` checks all of them.

Protocols are step systems: a state, a set of enabled steps, and theorems about every run,
that is about every interleaving. Beside them stand the program's own functions as classes
and methods that update fields and arrays in place; each method is specified by the step
system or by a recursive function, and the theorems are about those.

## What is proved

**Ethernet transmit** (`EthernetTx`, `EthernetTransmit`). One output task, preempted anywhere
by the reclaim pass, and DMA completions at any time. The descriptors between tail and head
are exactly the window the semaphore accounts for, so the ownership assertion never fires and
a half-prepared descriptor is never reclaimed. Two descriptors are needed: with one, a
concrete run stops in the assertion. An undisturbed pass takes exactly the longest completed
prefix. With a DMA engine that walks the ring, the wire carries the frames of the calls in
order, each with its own length up to 1536 bytes, and a buffer is released only after its frame
was sent.

**Ethernet receive and buffer conservation** (`EthernetRx`, `EthernetReceive`,
`EthernetDriver`, `EthernetChain`, `EthernetCalls`). `newDescriptor` is not reset between
iterations of the drain loop, so a filtered frame drained after an accepted one installs a
buffer a second time. The model keeps this. Over every run of both directions, the network
buffers are conserved **if and only if** no drain accepts a frame and filters the very next one;
a run that does loses a buffer for good, and two frames after start-up are enough for it.
Otherwise chains are null-terminated and carry the accepted frames in order, each with the
length reported for it less its last four bytes. After such a drain two descriptors share a
buffer, and the promise of a null-terminated chain fails: from any ring, the list a drain links
holds all accepted buffers **if and only if** they are distinct, and the loop that releases a
refused list returns **if and only if** the two frames accepted last are not in the same buffer.
Every start-up state with two free buffers has a run after which it does not return.

**ELF to UF2** (`Uf2Pages`, `Uf2Blocks`, `Uf2Convert`, `Uf2Bytes`, `Uf2Program`, `Uf2Families`).
Reading the UF2 blocks back gives every file-backed byte at its physical address and zero
elsewhere on touched pages; `Uf2Bytes` states this from the bytes of the program headers to the
512 bytes of every block, without the functions in between. The overlap error is raised exactly
for overlapping segments, the conversion succeeds exactly under a stated condition, the
container is well formed, and every target name gets its longest matching family. For any table,
first match is longest match if and only if no entry is a proper prefix of a later one.

**Queue UART** (`UartTx`, `UartDriver`). With any number of writers, no byte is stranded in the
queue, the hardware alone finishes the work once no task is mid-operation, and a writer blocked
on a full queue gets room: the hardware and the tasks mid-operation can only take a bounded
number of steps before it has. With one writer, wire, data register and queue together always
hold the accepted bytes in order, although a writer may bypass the queue. Bytes can never be
lost **if and only if** there is at most one writer. A single task that only writes has every
byte it wrote on the wire, in the register, in the queue or in hand, in order, **if and only if**
none was refused, and `writeBlocking` refuses none. The count of `discardTransmitBuffer` is
the number of bytes it throws away **if and only if** the sends of other tasks between its count
and its reset balance the bytes taken and reset by others; it can be trusted in every
interleaving **if and only if** the queue is empty at the count and no other task can send. A
receive interrupt runs the callback too, and a run from start-up shows the wrong count.

**Random numbers** (`RandomLcg`; `LinearOperator`, `ShiftWords`, `ShiftPowers`,
`Divisibility`, `RandomLfsr`). The linear congruential generator has full period 2^32 and
equally frequent 15-bit outputs. The shift register is multiplication by x modulo a primitive
polynomial: from every non-zero word it visits all 2^32 - 1 non-zero words. The proof squares
x thirty-two times and certifies that no shorter period divides 2^32 - 1.

**Disk self-test** (`DiskTest`, `DiskDetection`). For every drive, working or not, the result is
the code of the first of the drive's own calls that fails: every cycle writes one sector at 0,
four at 5, one at 5 and, on large drives, one at each side of the 4 GB limit, synchronises,
reads back and compares with what was written. The result is 0 **if and only if** all of these go
through in all cycles. For a drive whose operations succeed and whose reads return
the last write, the result is 0 **if and only if** the drive is too small for the 4 GB phase
or there are fewer than 2^30 cycles. In cycle 2^30 the 32-bit seed of that phase wraps to
zero, `pn(0)` does not seed, and the comparison reports a mismatch (code 24) although the
drive is sound. The comment at line 38 of examples/nucleo_f429zi/spi_flash_fatfs/main.cpp has
the two uses of the argument the wrong way round; the model follows the code.

**Firmware update** (`Firmware`). After staging, erasing and reprogramming, the start of the
flash equals the file, every programmed word was erased, and the erase loop spares the staged
image if and only if the file ends in the lower half. Of all files with the same body exactly
one is installed if the body ends in the processor type, the one with the body's inverted
checksum behind it, and none otherwise; any other file leaves the flash as it was.

**Atomic and masked register writes** (`HwRegister`). Any mix of concurrent set, clear, flip
and `hw_write_masked` calls gives every finished core what it promises, from every start value,
**if and only if** any two of them write different bits or are both sets or both clears, and
then all complete interleavings agree.

**Copyright headers** (`CopyrightYears`, `CopyrightRegex`, `CopyrightParser`,
`CopyrightHeader`, `CopyrightText`, `CopyrightReading`, `CopyrightRoundTrip`). The printed text
is given line by line: the authors with their years, by first year, last year and name, an empty
line, the license and the end of the comment. In the style of C it is one comment, closed only at
its end **if and only if** no name closes one. The parser's regular expression is modelled by
backtracking. Reading any lines fails **if and only if** a copyright in them has years that are
not all numbers, and otherwise gives every author the years of the last line that names it.
Printing and reading back gives the same map **if and only if** every list of years is ascending
and every name is non-empty, does not begin with a digit, does not begin with a space unless a
digit follows it, does not end in white space, and contains no line boundary. Reading the printed header raises an exception **if and only if** some name is bad: its
first line begins with a space that no digit follows, or begins with a digit and cannot be read
together with the years, or a further line of it cannot be read. No list of ranges naming the
same years is shorter than the printed one.

## Model

| member | source | states |
|---|---|---|
| `EthernetTx.StepKeepsValid` | ext/aws/modm_lan8720a.cpp:214-239 | every step of output task, DMA engine and reclaim pass keeps the window between tail and head equal to the descriptors the semaphore accounts for |
| `EthernetTx.RunKeepsWindow` | ext/aws/modm_lan8720a.cpp:584-604 | over every interleaving the window invariant holds and the ownership assertion never fires |
| `EthernetTx.ReclaimStaysInWindow` | ext/aws/modm_lan8720a.cpp:222-225 | what the loop test lets through is a completed descriptor of the window, never the one being prepared |
| `EthernetTx.OneDescriptorIsTooFew` | ext/aws/modm_lan8720a.cpp:224-225 | with a single descriptor a run exists that stops in the ownership assertion |
| `EthernetTx.SweepIsRun` | ext/aws/modm_lan8720a.cpp:214-239 | k rounds of the loop are a run of the step system that releases the reclaimed buffers |
| `EthernetTx.SweepTakesLongestPrefix` | ext/aws/modm_lan8720a.cpp:217-238 | a pass that stops has taken the longest completed prefix of the window, full ring included, and raised the semaphore by its length |
| `EthernetTx.RunKeepsFifo` | ext/aws/modm_lan8720a.cpp:596-604 | with a DMA engine that walks the ring the wire is a prefix of the submitted frames |
| `EthernetTx.StartedRunKeepsFifo` | ext/aws/modm_lan8720a.cpp:167-187 | the same for every run from the initialised ring of two or more descriptors |
| `EthernetTx.StartedRunSends` | ext/aws/modm_lan8720a.cpp:590-604 | from the initialised ring on, what is submitted, and so the wire, are the frames of the calls in order, each from its own buffer and with its own length up to 1536 |
| `EthernetTx.ReleasedAfterSent` | ext/aws/modm_lan8720a.cpp:226-232 | a reclaimed buffer is the one whose frame was sent next in order |
| `EthernetTransmit.TransmitInterface.constructor` | ext/aws/modm_lan8720a.cpp:167-187 | the initialised table is the initial state: linked, empty, CPU-owned |
| `EthernetTransmit.TransmitInterface.Output` | ext/aws/modm_lan8720a.cpp:557-615 | undisturbed, the call succeeds exactly with link and a free descriptor, hands over one frame of its own length up to 1536, and otherwise leaves the ring and releases the buffer when asked |
| `EthernetTransmit.OutputRunRuns` | ext/aws/modm_lan8720a.cpp:584-608 | the call's accesses are a run of the step system ending in the state it leaves |
| `EthernetTransmit.TransmitInterface.ReclaimSlot` | ext/aws/modm_lan8720a.cpp:226-237 | one round of the loop body is one reclaim step and releases that slot's buffer |
| `EthernetTransmit.TransmitInterface.ReclaimLoop` | ext/aws/modm_lan8720a.cpp:222-238 | the loop performs the rounds of a pass and stops where no further round is possible |
| `EthernetTransmit.TransmitInterface.ClearTxBuffers` | ext/aws/modm_lan8720a.cpp:214-239 | one pass reclaims exactly the longest completed prefix, raises the semaphore by it and keeps the invariant |
| `EthernetRx.DrainKeepsOrdered` | ext/aws/modm_lan8720a.cpp:321-365 | an iteration that is not stale keeps ring, heap and chain consistent with the frames in arrival order |
| `EthernetRx.ArriveKeepsOrdered` | ext/aws/modm_lan8720a.cpp:321-321 | a frame the DMA engine stores keeps them consistent |
| `EthernetRx.LinkKeepsLinked` | ext/aws/modm_lan8720a.cpp:340-348 | appending a buffer keeps the chain a null-terminated list and sets its data length |
| `EthernetRx.DrainListExactly` | ext/aws/modm_lan8720a.cpp:338-348 | whatever buffers are installed, the list a drain links holds the buffers of the loop-erased chain, ends exactly when the two linked last differ, and is the whole chain exactly when that is distinct |
| `EthernetChain.ChainFollows` | ext/aws/modm_lan8720a.cpp:341-347 | appending buffers in this order, some again, leaves links that lead along the list and from its last buffer nowhere or to itself |
| `EthernetChain.WalkEnds` | ext/aws/modm_lan8720a.cpp:296-300 | a walk along the links ends exactly when the two buffers appended last differ |
| `EthernetReceive.ReceiveInterface.DmaRxDescListInit` | ext/aws/modm_lan8720a.cpp:188-212 | every descriptor is linked, owned by the DMA engine and holds a buffer of its own |
| `EthernetReceive.ReceiveInterface.constructor` | ext/aws/modm_lan8720a.cpp:507-516 | start-up leaves the initial receive state, with ring and pool making up the stock |
| `EthernetReceive.DrainWalks` | ext/aws/modm_lan8720a.cpp:321-365 | the loop visits the pending descriptors in ring order and hands each back |
| `EthernetReceive.DrainLinks` | ext/aws/modm_lan8720a.cpp:322-348 | one undisturbed drain links the buffers of the frames it accepts, in ring order |
| `EthernetReceive.ReceivesExactly` | ext/aws/modm_lan8720a.cpp:323-371 | a drain reports something received exactly if the last frame it visits is reported with more than four bytes |
| `EthernetReceive.DistinctPending` | ext/aws/modm_lan8720a.cpp:322-348 | if no two pending frames share a buffer, each accepted buffer is linked once |
| `EthernetReceive.DrainedListExactly` | ext/aws/modm_lan8720a.cpp:338-348 | from any ring a run leaves, what is linked is a terminated list of all accepted buffers exactly when they are distinct, and its release ends exactly when the two accepted last are not the same buffer |
| `EthernetReceive.ReceiveInterface.Link` | ext/aws/modm_lan8720a.cpp:340-348 | the branch that appends a buffer has the specified effect on heap and chain ends |
| `EthernetReceive.ReceiveInterface.Judge` | ext/aws/modm_lan8720a.cpp:327-336 | the pool is asked exactly for wanted frames, and a frame is accepted only with a replacement |
| `EthernetReceive.ReceiveInterface.DrainDescriptor` | ext/aws/modm_lan8720a.cpp:322-364 | one iteration of the drain loop is one drain step, whose data length `EthernetDriver.BootedRunDelivers` states in numbers |
| `EthernetReceive.ReceiveInterface.DrainPending` | ext/aws/modm_lan8720a.cpp:321-365 | on any ring a run leaves, stale drains included, the loop ends after every pending descriptor was visited once |
| `EthernetReceive.ReceiveInterface.PassUp` | ext/aws/modm_lan8720a.cpp:367-368 | a list that is not empty is handed over, and the drain is closed |
| `EthernetReceive.ReceiveInterface.EmacInterfaceInput` | ext/aws/modm_lan8720a.cpp:307-371 | from any ring a run leaves, one drain visits all pending descriptors, passes up what it linked and accounts for the buffers released in any number of rounds, and returns exactly when the list ends or is taken |
| `EthernetReceive.ReceiveInterface.PassMessage` | ext/aws/modm_lan8720a.cpp:286-305 | the IP task takes the list, or its buffers are released one after the other along the links, for as many rounds as are followed |
| `EthernetDriver.TxConserves` | ext/aws/modm_lan8720a.cpp:575-612 | a transmit step only moves buffers between caller, ring, output task and pool |
| `EthernetDriver.StepConserves` | ext/aws/modm_lan8720a.cpp:286-371 | every step of the combined driver but a stale drain and the hand-over of a list that lacks a linked buffer conserves the buffers |
| `EthernetDriver.StaleLoses` | ext/aws/modm_lan8720a.cpp:350-351 | a stale drain loses the buffer of the descriptor it visits |
| `EthernetDriver.ConservedIffNeverStale` | ext/aws/modm_lan8720a.cpp:314-351 | over a run the buffers are conserved exactly when no drain is stale |
| `EthernetDriver.BootedRunConserves` | ext/aws/modm_lan8720a.cpp:507-516 | the same for every run from start-up |
| `EthernetDriver.BootedRunDelivers` | ext/aws/modm_lan8720a.cpp:338-368 | without stale drains, frames are filtered exactly when they are damaged, of another type or filtered out, and the buffers linked carry the accepted frames in arrival order, each with its reported length less four, in 32 bits |
| `EthernetDriver.JudgesExactly` | ext/aws/modm_lan8720a.cpp:327-336 | a drain accepts an undamaged ARP frame, or IPv4 frame that passes the filter, exactly when the pool gives a buffer, and no other frame |
| `EthernetDriver.RunKeepsFramed` | ext/aws/modm_lan8720a.cpp:321-365 | in every run, stale or not, the transmit window holds, the receive ring stays one the drain loop can walk, and the links are those of the order of linking |
| `EthernetDriver.HandsOverList` | ext/aws/modm_lan8720a.cpp:286-305 | in every state of a run the list handed over is the one its links make, a refused one only if it ends, and it lacks a linked buffer exactly when one was linked twice |
| `EthernetDriver.ConservedIffOnTrace` | ext/aws/modm_lan8720a.cpp:314-351 | from start-up, the buffers are conserved exactly when no drain accepts a frame and filters the very next one |
| `EthernetDriver.FilteredAfterWantedLoses` | ext/aws/modm_lan8720a.cpp:327-351 | whenever a wanted frame is pending directly before a filtered one, a drain loses a buffer |
| `EthernetDriver.StartUpLoses` | ext/aws/modm_lan8720a.cpp:314-351 | from every start-up state with a free buffer, two frames and one drain lose a buffer |
| `EthernetCalls.DrainIsRun` | ext/aws/modm_lan8720a.cpp:321-365 | the drain loop with nothing in between is a run of the combined driver |
| `EthernetCalls.CallIsRun` | ext/aws/modm_lan8720a.cpp:307-371 | a call that returns leaves the state in which a run of the combined driver ends |
| `EthernetCalls.BootedRunHandsOver` | ext/aws/modm_lan8720a.cpp:286-305 | in every run from start-up, stale or not, a refused list can be released to its end exactly when the two buffers linked last differ |
| `EthernetCalls.CleanRunCallReturns` | ext/aws/modm_lan8720a.cpp:307-371 | after every run from start-up without a stale drain no two pending frames share a buffer, and the next call links each accepted buffer once and returns |
| `EthernetCalls.StartUpCircles` | ext/aws/modm_lan8720a.cpp:296-351 | from every start-up state with two free buffers some run links a buffer to itself, and no number of rounds of the release loop ends |
| `Uf2Pages.AddressRangeVerdict` | tools/modm_tools/elf2uf2.py:171-199 | the range check refuses exactly contents outside all ranges or in an uninitialised first containing range |
| `Uf2Pages.ClashesExactly` | tools/modm_tools/elf2uf2.py:222-225 | the overlap test fires exactly when a byte of the new piece is taken |
| `Uf2Pages.SplitPlaces` | tools/modm_tools/elf2uf2.py:211-230 | a placed segment adds exactly its own bytes, none of which was taken, in disjoint fragments inside their pages |
| `Uf2Pages.SplitAccepts` | tools/modm_tools/elf2uf2.py:211-230 | a segment none of whose bytes is taken is placed |
| `Uf2Pages.SplitRefuses` | tools/modm_tools/elf2uf2.py:224-225 | a refused segment has a taken byte |
| `Uf2Pages.PlacePlaces` | tools/modm_tools/elf2uf2.py:202-230 | the pages of all segments hold exactly the image the program headers define |
| `Uf2Pages.OverlapExactly` | tools/modm_tools/elf2uf2.py:202-230 | among admissible inputs the overlap error is raised exactly when two segments claim a byte |
| `Uf2Blocks.PageOrderIrrelevant` | tools/modm_tools/elf2uf2.py:233-246 | the content of a page does not depend on the order of its fragments |
| `Uf2Blocks.BlockRoundTrip` | tools/modm_tools/elf2uf2.py:267-275 | a packed block reads back with its magic numbers, fields and data |
| `Uf2Blocks.DecodeFinds` | tools/modm_tools/elf2uf2.py:262-280 | reading the written blocks finds exactly the bytes of the pages |
| `Uf2Blocks.EmitSucceeds` | tools/modm_tools/elf2uf2.py:237-275 | the blocks can be written exactly when every fragment lies in the file and every field fits 32 bits |
| `Uf2Convert.ConvertPreservesImage` | tools/modm_tools/elf2uf2.py:249-280 | decoding the output gives every file-backed byte at its physical address, zero on the rest of touched pages, nothing elsewhere |
| `Uf2Convert.ConvertIsWellFormed` | tools/modm_tools/elf2uf2.py:259-280 | one 512-byte block per touched page, numbered, with distinct aligned targets and a constant total |
| `Uf2Convert.ConvertSucceedsExactly` | tools/modm_tools/elf2uf2.py:249-280 | the exact condition under which the conversion succeeds |
| `Uf2Bytes.HeaderReads` | tools/modm_tools/elf2uf2.py:202-206 | the fields of a program header are the little-endian numbers at bytes 0, 4, 8, 12, 16 and 20 of its entry |
| `Uf2Bytes.OutputBytes` | tools/modm_tools/elf2uf2.py:249-280 | the whole output byte by byte: one block for each page of 256 addresses that an entry loads something on, with its magic numbers, address, number and family, the bytes loaded there and zeros |
| `Uf2Bytes.LoadedByteArrives` | tools/modm_tools/elf2uf2.py:202-280 | byte k of an entry of type 1 is found at its physical address plus k, in a block that names this address |
| `Uf2Program.FindRange` | tools/modm_tools/elf2uf2.py:171-199 | the loop over the ranges computes the specified verdict |
| `Uf2Program.PageTable.Add` | tools/modm_tools/elf2uf2.py:219-230 | a piece is recorded, or refused when it clashes |
| `Uf2Program.PageTable.AddPiece` | tools/modm_tools/elf2uf2.py:215-230 | one round of the inner loop cuts at the page boundary, adds the piece and leaves the rest of the segment to place |
| `Uf2Program.PageTable.AddSegment` | tools/modm_tools/elf2uf2.py:211-230 | the inner loop cuts and places one segment |
| `Uf2Program.PageTable.PlaceSegment` | tools/modm_tools/elf2uf2.py:206-230 | one round of the outer loop places a loadable segment or reports its error |
| `Uf2Program.PageTable.ReadAndCheck` | tools/modm_tools/elf2uf2.py:202-230 | the outer loop places all loadable segments or reports the first error |
| `Uf2Program.RealizePage` | tools/modm_tools/elf2uf2.py:233-246 | copying the fragments gives the page content, or fails exactly when one lies outside the file |
| `Uf2Program.WriteBlocks` | tools/modm_tools/elf2uf2.py:259-280 | the block loop writes one block per page in dictionary order |
| `Uf2Program.ConvertData` | tools/modm_tools/elf2uf2.py:249-280 | the whole conversion, after the ELF header, of which `Uf2Bytes.OutputBytes` states every byte |
| `Uf2Families.CheckTarget` | tools/modm_tools/elf2uf2.py:283-288 | the first entry of the table that is a prefix of the target |
| `Uf2Families.FirstIsLongestIffWellOrdered` | tools/modm_tools/elf2uf2.py:42-49 | for any table, first match is longest match for every target exactly when no entry is a proper prefix of a later one |
| `Uf2Families.TargetsGetLongestFamily` | tools/modm_tools/elf2uf2.py:51-64 | with this table every target gets its longest matching entry |
| `RandomLcg.Generator.UxRand` | examples/nucleo_f429zi/ethernet/main.cpp:236-245 | one call updates the state modulo 2^32 and returns 15 of its bits |
| `RandomLcg.StepInNumbers` | examples/nucleo_f429zi/ethernet/main.cpp:238-243 | the update multiplies by 22695477, adds one and drops what does not fit 32 bits |
| `RandomLcg.OutputInBits` | examples/nucleo_f429zi/ethernet/main.cpp:244-244 | what is returned are the fifteen bits below the topmost one |
| `RandomLcg.SumValuation` | examples/nucleo_f429zi/ethernet/main.cpp:238-243 | the geometric sum of the multiplier has exactly as many factors of two as its number of terms |
| `RandomLcg.ReturnsExactlyAfterPeriod` | examples/nucleo_f429zi/ethernet/main.cpp:243-243 | from any seed the state returns exactly after multiples of 2^32 calls |
| `RandomLcg.VisitsEveryState` | examples/nucleo_f429zi/ethernet/main.cpp:243-243 | from any seed all 2^32 states are visited in one period |
| `RandomLcg.OutputsEquallyFrequent` | examples/nucleo_f429zi/ethernet/main.cpp:243-244 | over one period each 15-bit output occurs 2^17 times |
| `UartTx.RunKeepsFifo` | ext/aws/uart_buffer_freertos.hpp:65-140 | with one writer, in every interleaving, wire, register and queue hold the kept bytes in order |
| `UartTx.RunKeepsNoneStranded` | ext/aws/uart_buffer_freertos.hpp:65-165 | with any number of writers, in every interleaving, a waiting byte has the interrupt enabled unless a task is about to enable it or to discard the queue |
| `UartTx.StartedRunStrandsNone` | ext/aws/uart_buffer_freertos.hpp:65-165 | the same for every run from start-up |
| `UartTx.LosslessIffOneWriter` | ext/aws/uart_buffer_freertos.hpp:103-117 | no run loses a byte exactly when there is at most one writer |
| `UartTx.StartedRunSendsAll` | ext/aws/uart_buffer_freertos.hpp:103-140 | from start-up with one task that only writes, in every interleaving, wire, register, queue and the byte in hand are the bytes written, in order, exactly if none was refused, and writeBlocking refuses none |
| `UartTx.WriteRuns` | ext/aws/uart_buffer_freertos.hpp:103-117 | an undisturbed write is a run of the step system and leaves the byte in the register, in the queue with the interrupt enabled, or nowhere |
| `UartTx.DiscardRuns` | ext/aws/uart_buffer_freertos.hpp:157-165 | an undisturbed discard is a run of the step system that empties the queue |
| `UartTx.BlockedWriterIsServed` | ext/aws/uart_buffer_freertos.hpp:127-140 | among any number of writers, the hardware and the tasks mid-operation take a bounded number of steps, and where they cannot go on a blocked writer has room |
| `UartTx.BlockedWriterIsServedSoon` | ext/aws/uart_buffer_freertos.hpp:127-140 | at most two hardware steps give it room when no task is mid-operation, and at most three steps otherwise |
| `UartTx.HardwareDrains` | ext/aws/uart_buffer_freertos.hpp:72-83 | with any number of writers and none mid-operation, the hardware's own runs are bounded, lose and reorder nothing and end with an empty queue and every waiting byte on the wire |
| `UartTx.DiscardCount` | ext/aws/uart_buffer_freertos.hpp:157-165 | with any number of tasks, from the count to the reset, the returned count and the sends in between equal the bytes thrown away, taken and reset by others; with one task the count is right exactly when no callback took a byte |
| `UartTx.DiscardThrows` | ext/aws/uart_buffer_freertos.hpp:157-165 | with one task, the bytes thrown away are the youngest kept ones |
| `UartTx.CountIsSafeExactly` | ext/aws/uart_buffer_freertos.hpp:157-165 | the count is right in every interleaving exactly when the queue is empty at the count and no other task can send |
| `UartTx.TransmitInterruptTakesNothing` | ext/aws/uart_buffer_freertos.hpp:160-161 | with the transmit interrupt disabled, the hardware's own transmit interrupts take no byte in between |
| `UartTx.DiscardMiscounts` | ext/aws/uart_buffer_freertos.hpp:180-181 | for every queue size a run from start-up with a receive interrupt returns one byte and throws away none |
| `UartDriver.BufferedUart.InterruptCallback` | ext/aws/uart_buffer_freertos.hpp:65-90 | one callback moves one queued byte or disables the interrupt, and takes a received byte if there is room |
| `UartDriver.BufferedUart.Write` | ext/aws/uart_buffer_freertos.hpp:103-117 | a byte is accepted in order, or refused exactly when the register is busy and the queue full; the call is a run of the step system |
| `UartDriver.BufferedUart.WriteAll` | ext/aws/uart_buffer_freertos.hpp:119-125 | the longest prefix that fits is accepted |
| `UartDriver.BufferedUart.DiscardTransmitBuffer` | ext/aws/uart_buffer_freertos.hpp:157-165 | the queued bytes go, only they, and the count is theirs; the call is a run of the step system |
| `UartDriver.BufferedUart.Read` | ext/aws/uart_buffer_freertos.hpp:213-221 | what waits is read in order, up to the length asked for |
| `UartDriver.BufferedUart.DiscardReceiveBuffer` | ext/aws/uart_buffer_freertos.hpp:226-237 | the receive queue is emptied and counted |
| `HwRegister.Register.SetBits` | ext/rp/address_mapped.h:141-145 | the masked bits are all one and the others as before |
| `HwRegister.Register.ClearBits` | ext/rp/address_mapped.h:153-157 | the masked bits are all zero and the others as before |
| `HwRegister.Register.XorBits` | ext/rp/address_mapped.h:165-169 | among the masked bits exactly those are one that were zero, and the others are as before |
| `HwRegister.Register.WriteMasked` | ext/rp/address_mapped.h:184-188 | undisturbed, the masked bits take the new values and the others stay |
| `HwRegister.RunKeepsSound` | ext/rp/address_mapped.h:141-188 | with compatible jobs every interleaving of sets, clears, flips and masked writes keeps each core's bits as promised and the rest unchanged |
| `HwRegister.FinishedBits` | ext/rp/address_mapped.h:141-188 | bit by bit: where a core of compatible jobs has finished, a masked bit is the value written, one, zero or the opposite of its start, and bits in no mask are as at the start |
| `HwRegister.CompleteRunsAgree` | ext/rp/address_mapped.h:174-178 | with compatible jobs all complete interleavings give the same register |
| `HwRegister.ClashSpoils` | ext/rp/address_mapped.h:174-178 | two jobs on the same bit that are not both sets or both clears have a start value and a run that break a promise |
| `HwRegister.ServedIffCompatible` | ext/rp/address_mapped.h:174-178 | finished cores always find their bits as promised exactly when any two jobs write different bits or are both sets or both clears |
| `Firmware.PageHolds` | examples/nucleo_f429zi/usbfatfs/main.cpp:101-103 | the page of an address contains it |
| `Firmware.EraseSparesImageIff` | examples/nucleo_f429zi/usbfatfs/main.cpp:43-44 | erasing up to the page of the file's end spares the staged image exactly when that end lies in the lower half |
| `Firmware.Flash.EraseRange` | examples/nucleo_f429zi/usbfatfs/main.cpp:101-103 | exactly the bytes of the pages in the range are erased |
| `Firmware.Flash.ProgramFile` | examples/nucleo_f429zi/usbfatfs/main.cpp:104-111 | the word loop writes the file onto erased flash only |
| `Firmware.Flash.Stage` | examples/nucleo_f429zi/usbfatfs/main.cpp:100-111 | the file lands in the middle of the flash and the lower half is untouched |
| `Firmware.Flash.RamApply` | examples/nucleo_f429zi/usbfatfs/main.cpp:38-48 | the staged image replaces the start of the flash, is not touched itself, and every word lands on erased flash |
| `Firmware.Flash.CheckForUpdate` | examples/nucleo_f429zi/usbfatfs/main.cpp:91-116 | the flash starts with the file exactly if the file is genuine, and is unchanged otherwise |
| `Firmware.ComputeCrc` | examples/nucleo_f429zi/usbfatfs/main.cpp:65-71 | the byte loop folds the update over the data |
| `Firmware.IsValid` | examples/nucleo_f429zi/usbfatfs/main.cpp:50-77 | true exactly if the file ends in "F429" and the bytes of its inverted checksum, most significant first |
| `Firmware.CrcFolds` | examples/nucleo_f429zi/usbfatfs/main.cpp:65-71 | the checksum starts with the initial value and takes up one byte after the other |
| `Firmware.TrailerExactly` | examples/nucleo_f429zi/usbfatfs/main.cpp:50-77 | a body and four bytes are accepted exactly if the body ends in "F429" and the bytes are those of its inverted checksum, most significant first |
| `Firmware.OneTrailer` | examples/nucleo_f429zi/usbfatfs/main.cpp:50-77 | exactly one trailer is accepted behind such a body, and none behind another |
| `LinearOperator.ApplyCommutes` | examples/nucleo_f429zi/spi_flash_fatfs/main.cpp:49-54 | polynomials in a linear step commute |
| `LinearOperator.MulAssociates` | examples/nucleo_f429zi/spi_flash_fatfs/main.cpp:49-54 | multiplication of words as polynomials is associative |
| `LinearOperator.IterIsMul` | examples/nucleo_f429zi/spi_flash_fatfs/main.cpp:49-54 | n steps are the multiplication by the n-th power |
| `LinearOperator.OnlyZeroMeets` | examples/nucleo_f429zi/spi_flash_fatfs/main.cpp:49-54 | when the difference of two powers is invertible, only zero is equal after both numbers of steps |
| `ShiftWords.WordsLawful` | examples/nucleo_f429zi/spi_flash_fatfs/main.cpp:49-54 | 32-bit words under the step of the register obey the laws of the theory |
| `ShiftWords.ProductIsMul` | examples/nucleo_f429zi/spi_flash_fatfs/main.cpp:49-54 | the written-out product of two words is their product as polynomials |
| `RandomLfsr.Register.Pn` | examples/nucleo_f429zi/spi_flash_fatfs/main.cpp:37-56 | a seeding call leaves the seed 33 steps on, any other call one step on |
| `RandomLfsr.StepBijective` | examples/nucleo_f429zi/spi_flash_fatfs/main.cpp:49-54 | the step is a bijection on words, with the given inverse |
| `RandomLfsr.RunKeepsNonZero` | examples/nucleo_f429zi/spi_flash_fatfs/main.cpp:49-54 | a non-zero word never becomes zero |
| `RandomLfsr.ReturnsExactly` | examples/nucleo_f429zi/spi_flash_fatfs/main.cpp:49-54 | a non-zero word returns exactly after multiples of 2^32 - 1 steps |
| `RandomLfsr.VisitsEveryWord` | examples/nucleo_f429zi/spi_flash_fatfs/main.cpp:49-54 | every non-zero word is reached from every other within one period |
| `RandomLfsr.BytesTellWords` | examples/nucleo_f429zi/spi_flash_fatfs/main.cpp:137-137 | equal low bytes in 32 consecutive steps come from equal words |
| `RandomLfsr.ReplaysExactly` | examples/nucleo_f429zi/spi_flash_fatfs/main.cpp:137-163 | asking for the same n bytes again gives them again exactly when the argument seeds, the register is stuck at zero, or n + 1 is a multiple of 2^32 - 1 |
| `DiskTest.Tester.Fill` | examples/nucleo_f429zi/spi_flash_fatfs/main.cpp:137-137 | the buffer holds the stream of the seed |
| `DiskTest.Tester.Matches` | examples/nucleo_f429zi/spi_flash_fatfs/main.cpp:163-169 | the comparison passes exactly when the buffer is the replayed stream |
| `DiskTest.Tester.MatchesLate` | examples/nucleo_f429zi/spi_flash_fatfs/main.cpp:296-302 | the same for the last phase, whose loop takes one step more |
| `DiskTest.Tester.RoundTrip` | examples/nucleo_f429zi/spi_flash_fatfs/main.cpp:134-170 | one phase on any drive has the code and state of its specification, with its own error codes and buffer offsets |
| `DiskTest.Tester.BarrierTest` | examples/nucleo_f429zi/spi_flash_fatfs/main.cpp:251-302 | the 4 GB phase up to its synchronisation, and its result |
| `DiskTest.Tester.BarrierCompare` | examples/nucleo_f429zi/spi_flash_fatfs/main.cpp:279-302 | reading both sectors back and comparing, with codes 22 to 24 |
| `DiskTest.Tester.RunPhases` | examples/nucleo_f429zi/spi_flash_fatfs/main.cpp:134-306 | the four phases in order, the last one on large drives only; `DiskDetection.CycleDetects` states what they detect |
| `DiskTest.Tester.RunCycle` | examples/nucleo_f429zi/spi_flash_fatfs/main.cpp:78-306 | one cycle, with codes 2 to 4 before the phases |
| `DiskTest.Tester.TestDiskIo` | examples/nucleo_f429zi/spi_flash_fatfs/main.cpp:58-312 | on any drive the result is that of the cycles of the specification, which `DiskDetection.TestDetects` states over the drive's calls |
| `DiskTest.AttemptOnFaithful` | examples/nucleo_f429zi/spi_flash_fatfs/main.cpp:134-249 | on a sound drive a phase passes exactly when the stream is replayed |
| `DiskTest.BarrierOnFaithful` | examples/nucleo_f429zi/spi_flash_fatfs/main.cpp:251-305 | the same for the 4 GB phase, with code 24 |
| `DiskTest.CycleOnFaithful` | examples/nucleo_f429zi/spi_flash_fatfs/main.cpp:75-309 | on a sound drive a cycle fails exactly on a large drive when its number is a multiple of 2^30 |
| `DiskTest.FaithfulDrivePasses` | examples/nucleo_f429zi/spi_flash_fatfs/main.cpp:58-312 | a sound drive passes exactly when it is below the 4 GB size or there are fewer than 2^30 cycles; otherwise the code is 24 |
| `DiskTest.FaithfulDriveFails` | examples/nucleo_f429zi/spi_flash_fatfs/main.cpp:251-306 | a drive in memory that is sound and fails, so the unconditional promise is false |
| `DiskDetection.PlaceIsAttempt` | examples/nucleo_f429zi/spi_flash_fatfs/main.cpp:134-170 | on any drive one phase has the code of the first of its own write, synchronisation, read and comparison that fails |
| `DiskDetection.CycleDetects` | examples/nucleo_f429zi/spi_flash_fatfs/main.cpp:75-309 | on any drive one cycle has the code of the first failing call, with the data of its number |
| `DiskDetection.TestDetects` | examples/nucleo_f429zi/spi_flash_fatfs/main.cpp:58-312 | on any drive the result is 0 exactly when every call of every cycle goes through, and otherwise the code of the first failing call of the first failing cycle |
| `DiskDetection.CodeOfNone` | examples/nucleo_f429zi/spi_flash_fatfs/main.cpp:78-306 | the code of a cycle is 0 exactly when all its calls went through |
| `DiskDetection.LastPlaceCompares` | examples/nucleo_f429zi/spi_flash_fatfs/main.cpp:251-305 | the last phase compares with what it wrote except in every 2^30-th cycle |
| `CopyrightYears.Streaks` | tools/scripts/copyright.py:283-291 | the loop splits the years into their runs of consecutive years |
| `CopyrightYears.CompactifyYears` | tools/scripts/copyright.py:281-294 | the runs are printed as ranges; without years the first element of the empty streak is missing |
| `CopyrightYears.RunsExpand` | tools/scripts/copyright.py:281-294 | the printed ranges expand to the list they came from |
| `CopyrightYears.RunsAreFewest` | tools/scripts/copyright.py:281-294 | no list of ranges naming the same increasing years is shorter |
| `CopyrightRegex.SearchFinds` | tools/scripts/copyright.py:239-239 | on a printed line the expression finds all ranges, and the author unless it takes the author's leading space |
| `CopyrightRegex.SearchFits` | tools/scripts/copyright.py:239-239 | whatever follows the years, what is found as author is no longer |
| `CopyrightRegex.SearchEnds` | tools/scripts/copyright.py:239-239 | what is found as author ends the line, follows a space and does not begin with a digit |
| `CopyrightParser.GroupReads` | tools/scripts/copyright.py:241-247 | the years group of printed ranges reads as their years |
| `CopyrightParser.SpacedGroupFails` | tools/scripts/copyright.py:241-247 | with a space behind the last comma the years group cannot be read |
| `CopyrightParser.SortedFixes` | tools/scripts/copyright.py:249-249 | sorting changes nothing exactly for ascending lists |
| `CopyrightParser.ParseGroup` | tools/scripts/copyright.py:241-247 | the loop over the pieces collects their years, or fails on the first unreadable one |
| `CopyrightParser.ParseCopyrightAuthors` | tools/scripts/copyright.py:235-250 | the loop over the lines gives the map of the lines, a later line replacing an earlier one |
| `CopyrightReading.ReadsExactly` | tools/scripts/copyright.py:235-250 | reading any lines fails exactly if a copyright in them has years that are not all numbers; otherwise each author named has the years of the last line naming it, ascending |
| `CopyrightReading.PieceSpans` | tools/scripts/copyright.py:243-245 | a piece with dashes stands for the years from its first number to its second |
| `CopyrightHeader.SortedAuthors` | tools/scripts/copyright.py:299-300 | the authors strictly ordered by first year, last year and name |
| `CopyrightHeader.BuildLines` | tools/scripts/copyright.py:298-307 | one line per author, an empty line and the license |
| `CopyrightHeader.WrapLines` | tools/scripts/copyright.py:308-318 | every line in its comment style without trailing white space, as `CopyrightText.TextSpelled` spells them out |
| `CopyrightHeader.FormatCopyrightHeader` | tools/scripts/copyright.py:296-320 | the header text for the ordered authors, as `CopyrightText.TextSpelled` spells it out; nothing without a style, an error for an author without years |
| `CopyrightText.TextSpelled` | tools/scripts/copyright.py:296-320 | the lines of the text in any style: authors with years, an empty line, the license lines, each behind the beginning of the comment or of its lines, and style.last behind the last, without white space at the end |
| `CopyrightText.RangeSpelled` | tools/scripts/copyright.py:293-293 | a range is the four digits of its first year and, if it has more, a dash and those of its last |
| `CopyrightText.EarlierIsAbove` | tools/scripts/copyright.py:299-300 | an author with an earlier first year is printed above |
| `CopyrightText.EarlierEndIsAbove` | tools/scripts/copyright.py:299-300 | among authors with the same first year one with an earlier last year is printed above |
| `CopyrightText.NameDecidesLast` | tools/scripts/copyright.py:299-300 | among authors with the same first and last year the name decides, character by character |
| `CopyrightText.TextFramed` | tools/scripts/copyright.py:308-320 | in every style of the table the text begins like the comment and ends in the last license line and the end of the comment |
| `CopyrightText.OneComment` | tools/scripts/copyright.py:308-320 | in the style of C the text opens a comment, ends by closing it, and is closed nowhere before exactly if no name closes a comment |
| `CopyrightRoundTrip.SurvivorsReturn` | tools/scripts/copyright.py:235-250 | names that survive come back from the printed header with their years sorted |
| `CopyrightRoundTrip.LostName` | tools/scripts/copyright.py:235-250 | when some name does not survive, one is missing from what is read |
| `CopyrightRoundTrip.HeaderRoundTrip` | tools/scripts/copyright.py:235-320 | printing and reading back gives the same map exactly when all names survive and all years ascend |
| `CopyrightRoundTrip.StoppingNameFails` | tools/scripts/copyright.py:235-250 | one name whose first line begins with a space that no digit follows makes the reading of the whole printed header fail, because the years then end in a piece that is a space |
| `CopyrightRoundTrip.UnreadableExactly` | tools/scripts/copyright.py:235-250 | for all authors, reading their printed header fails exactly when some name is bad with its years |
| `CopyrightRoundTrip.PlainNameIsBad` | tools/scripts/copyright.py:239-247 | a name on one line without a leading digit is bad exactly when, without the white space at its end, it begins with a space that no digit follows |
| `CopyrightRoundTrip.TextFailsExactly` | tools/scripts/copyright.py:235-250 | the printed line of one author fails exactly when the name is bad, whatever it contains |
| `CopyrightRoundTrip.LeadingSpaceIsUnreadable` | tools/scripts/copyright.py:239-247 | the header of the one author " A" is printed, and reading it raises the ValueError, in every style and for all years |

## Left out

- FreeRTOS, FreeRTOS+TCP, FatFs, TinyUSB and the modm hardware layer are small contracts here: a counting semaphore, a bounded queue, a pool that answers unless it is empty, flash pages, an uninterpreted checksum update.
- Weak memory order, barriers and cache effects: every access is one step.
- The optional packet filter of mayAcceptPacket: a frame carries whether it passes it.
- Races on the event flags and the wake-up of the EMAC task: nothing is said about when a pass runs, nor about a completion that falls between setting the ownership bit and advancing the head.
- phyCheckLinkStatus and the link configuration: the link state is an argument of the output call; the timer around it says little beyond its own lines.
- EthernetTx.RunKeepsFifo: assumes that the DMA engine completes transmit descriptors in ring order; the window theorems let it complete them in any order. On receive it fills descriptors in ring order.
- One iteration of the receive loop is one step of the combined driver; the output task and the DMA engine step between iterations.
- EthernetReceive.ReceiveInterface.EmacInterfaceInput: the release loop is followed for a given number of rounds, so that the case in which it does not return can be stated; a list the IP task takes is one that it walks on its own, which is not modelled.
- The checksum field that is cleared in ICMP packets before sending.
- read_header and the ELF file header: the position and number of program headers are arguments; the integer addresses of the model are unbounded, and a block field of 2^32 or more is an error as in struct.pack.
- The warning for virtual addresses outside all ranges, check_valid_range, printing and file access of elf2uf2.
- The UART's yield flags, overrun flags and flushWriteBuffer. writeBlocking of a buffer is a sequence of single writes.
- HwRegister.Register.WriteMasked: a word is the set of its one bits and its width of 32 is not modelled; each address alias is the operation behind it.
- Firmware.Flash.CheckForUpdate: files shorter than 8 bytes or reaching the middle of the flash are excluded, because the program's own arithmetic and page look-up are undefined for them; the reset at the end and the lock are not modelled.
- DiskTest.Tester.TestDiskIo: 2^32 - 1 cycles are excluded, because the 32-bit counter then never exceeds its bound and the program does not end on a small drive; the size check of the buffer, which is four sectors, and the block size query, which is only printed, are not modelled.
- Log output everywhere.
- Years of other than four digits: the printed pattern of the parser does not fit them.
- CopyrightParser.ParseCopyrightAuthors: lines are split at every boundary character, so empty lines are kept that str.splitlines may drop; they never match.
- git history, file rewriting and the comment style detection of copyright.py.
- The copies of these programs for other boards, and the rest of the repository, whose members would be easier.
