# Shadow-MSM: verified model of the byte paths between host and target

Shadow-MSM drives a small ARM modem from a PC through protocols written by hand. This project models
the parts that move bytes and proves what they are for:

* **The host-input ring.** The stage-0 monitor's input handler fills a 256-byte ring that the Linux
  driver drains. Packets and receives refine a FIFO of at most 255 bytes over every run; the same
  holds when the single memory operations of the two sides interleave in any order, and with resets
  under the driver's lock.
* **Framing and checks.** The HDLC writer and reader, octet stuffing as in section 4.2 of RFC 1662,
  the 16-bit frame check of appendix C.2 of RFC 1662 and the CRC-32 of section 8 of RFC 1952. Both
  register loops are proved equal to long division of the message polynomial.
* **The monitor.** The ARM handler over a 32-bit address space and its registers: what every packet
  does, what it can store to, what it restores, and what it may call.
* **The kernel's diagnostic channel.** TTBR borrowing, the lock and the mailbox consumer, running on
  the same memory as the monitor; and input delivered through all of these, from the host's call to
  the driver's buffer.
* **The flattened device tree.** Writer and parser, for any tree, with the exact condition under which
  the parser's dictionary holds what the tree held.
* **The RAM bundle loader and the image patcher.** What is written, what is left alone, what is refused.
* **The polling SD host driver and the recovery shell.** Requests against any sequence of status
  words; a line editor that cannot tell how its input was split; a printer that never divides.

## How it is modelled

Bytes are integers below 256 and machine words integers below 2^32; wrap-around is written out. Code
that updates memory, buffers or fields is a method over an `array` or a `class`, proved equal to a
function of its inputs or of the old state; the laws are lemmas about those functions.

`memory.dfy` gives the processor's address space as one array of 2^32 bytes, under the identity mapping the
diagnostic code uses. A handler's loop registers are local variables; r4, r5, r6, sp and lr are
fields, since the handler must give them back. Whatever the model cannot see is a parameter that takes
every value: what a called second stage leaves in memory (`Monitor.Return`), what the stock receive code
hands to the handler (`Kernel.Turn`), how the boot loader treats each transmitted chunk
(`Bundle.Attempt`), what the SD controller shows at each look (`Sdcc.Poll`).

Assumptions about code that is not shown are `requires` clauses with these meanings. The calling
convention is respected, so a callee leaves the caller's stack frame alone. A packet, the stack
frame, the message buffer and the mailbox do not overlap (`Monitor.Enterable`). The stock receive code,
and a second stage run while Linux is up, leave the mailbox alone (`Kernel.Possible`). The boot loader
acknowledges a chunk only after storing it (`Bundle.Honest`). The target's frame decoder is the reader
the host uses. Packets and stack are word-aligned, as unaligned ARM926 loads would rotate.

## Where the code and its promise part

* The input handler masks the head index only after storing through it, so in a mailbox that already
  carries the magic, as memory left over from elsewhere may, a head word of 256 or more sends its first
  store outside the ring. The exact condition is `Monitor.InputInRingIff`; every mailbox the two sides
  have written meets it.
* Input is lost whenever a chunk arrives with too little room, since a receive dispatches a packet
  before it drains; the exact condition is `Delivery.PollLosslessIffFits`. Limits of 64 and more never
  lose any (`Delivery.FullPacketsFit`); limits below 64 do in the long run (`Delivery.SlowReaderLoses`,
  `Delivery.OneByteReadsLose`), and the driver's caller (kernel/drivers/tty-shadow-msm.c:67-70) passes
  such limits when the tty buffer is nearly full.
* A frame with an empty payload reads back as its two check bytes (`Hdlc.FrameRoundTrip`). RFC 1662 lets
  two frames share a flag; this reader returns the second if and only if it has a flag of its own
  (`Hdlc.SharedFlagIff`).
* The target accepts the empty CRC range at the end of the window; the host does not
  (`Host.QueryBounds`).
* Two sibling nodes with one name overwrite each other in the parser's dictionary
  (`FdtLookup.TwinsLoseValue`), so distinct sibling names are needed as well as distinct property
  names; a (0, 0) reservation cuts the list short (`FdtRoundTrip.UpToZeroComplete`).
* The loader's neighbour check refuses an empty image strictly inside another although no byte is
  shared (`Bundle.EmptyInsideRefused`); `Bundle.CheckIsDisjointnessIff` says exactly when that decides.
* A supported SD write whose scatter list is too short leaves DATACTRL enabled and the data error
  field at 0 (`Sdcc.Host.Request`).
* In a full line of the recovery shell, typing a character and erasing it removes a character typed
  earlier (`Shell.EraseUndoesIffRoom`).

## Model

| member | source | states |
|---|---|---|
| Ring.PushAppends | work/build_armprg_stage0_monitor.py:251-290 | one input packet appends exactly the longest prefix of its arguments that fits, min(length, 64, 255 minus queued) bytes, and keeps both indices in range |
| Ring.PullTakes | kernel/drivers/timer-shadow-msm.c:168-179 | one receive removes and returns exactly the front min(limit, queued) bytes |
| Ring.RunConserves | kernel/drivers/timer-shadow-msm.c:144-215 | over every run of packets, receives and resets, what was consumed followed by what is queued is what was accepted since the last reset |
| Interleaving.StepKeeps | work/build_armprg_stage0_monitor.py:269-285 | every single memory operation of either side, at any moment of the other, keeps the FIFO invariant |
| Interleaving.InterleavedFifo | kernel/drivers/timer-shadow-msm.c:170-179 | after any interleaving of single operations, what was delivered is a prefix of what was accepted and the ring words hold exactly the rest; the next row says what was accepted |
| Schedules.AcceptedIsWhatWasSent | work/build_armprg_stage0_monitor.py:261-285 | after any interleaving, what was accepted is the first 64 bytes of each packet sent, or all of a shorter one, in order, except that a packet is cut short exactly where the stream stood 255 bytes beyond the tail its handler had read; only a packet still in hand is missing |
| Schedules.WholePacketIsPush | work/build_armprg_stage0_monitor.py:261-285 | from every reachable moment with both sides idle, a packet run to its end undisturbed leaves the words that one push of the ring leaves |
| Schedules.WholeReceiveIsPull | kernel/drivers/timer-shadow-msm.c:168-179 | from every such moment, a receive run to its end undisturbed leaves the words and delivers the bytes of one pull of the ring |
| Interleaving.CommitTakes | work/build_armprg_stage0_monitor.py:272-285 | a commit accepts exactly the bytes stored for this packet, cut short only when the ring was full at the tail it had read |
| Interleaving.ReceiveTakes | kernel/drivers/timer-shadow-msm.c:171-178 | a finished copy delivers exactly the next bytes of the accepted stream, as many as the limit and the head it had read allow |
| Resets.ResetKeepsFifoIff | kernel/drivers/timer-shadow-msm.c:208-210 | from any reachable moment of the two sides, every schedule after a reset keeps the ring a FIFO if and only if neither side holds an index from before that it would still act on; the condition is read off the two program counters |
| Locking.LockedFifo | kernel/drivers/timer-shadow-msm.c:156-196 | with the handler inside a receive and receive and reset under one lock, every run of receives and resets, cut into single memory operations, is a FIFO |
| Locking.LockedStepKeeps | kernel/drivers/timer-shadow-msm.c:156-196 | whenever the lock lets a reset run, that reset is one of the safe ones; while the lock is held, every other call waits |
| Locking.LockedReceive | kernel/drivers/timer-shadow-msm.c:156-183 | a receive that finds the lock free, run to its end, is the push of its packet and then the pull of its limit, and frees the lock |
| Hdlc.HdlcFrame | outputs/k3765_linux_shell.py:114-124 | the framing loop computes the flagged, stuffed body with its little-endian check |
| Hdlc.FrameLayout | outputs/k3765_linux_shell.py:115-124 | on the wire a frame is 7E, the stuffed payload, the check with its low octet first, stuffed, and 7E |
| Hdlc.StuffOctet | outputs/k3765_linux_shell.py:119-123 | 7E is sent as 7D 5E, 7D as 7D 5D and every other octet as itself |
| Hdlc.StuffConcat | outputs/k3765_linux_shell.py:118-123 | a body is stuffed piece by piece, so the octets fix the whole |
| Hdlc.Port.ReadFrame | outputs/k3765_linux_shell.py:458-493 | one call of the reader returns the reply and leaves the rest of the stream that the scanner function defines, for every byte stream |
| Hdlc.ReadsFirstFrame | outputs/k3765_linux_shell.py:458-493 | for every byte stream: the reader skips what is not a flag, then flags, and decodes the octets up to the next flag, leaving what follows it; if that flag never comes it times out |
| Hdlc.UnstuffStuff | outputs/k3765_linux_shell.py:118-123 | removing escapes undoes octet stuffing for every body |
| Hdlc.FrameRoundTrip | outputs/k3765_linux_shell.py:458-493 | after flag-free noise and any number of spare flags, a frame is consumed through its closing flag and returns its payload if and only if that payload is not empty |
| Hdlc.StreamRoundTrip | outputs/k3765_linux_shell.py:458-493 | repeated reads of any list of non-empty framed payloads, with noise and spare flags, return exactly that list and leave what follows it |
| Hdlc.DamageReported | outputs/k3765_linux_shell.py:483-490 | a body damaged within any sixteen consecutive bits is reported as a mismatch, and reading resumes after it |
| Hdlc.SharedFlagIff | outputs/k3765_linux_shell.py:466-474 | of two frames the second is returned if and only if at least one flag besides the first's closing flag opens it |
| Hdlc.ToggleIsXor | outputs/k3765_linux_shell.py:121 | adding or subtracting 32 as the sixth bit asks is exclusive-or with 0x20 |
| FrameCheck.Compute | outputs/k3765_linux_shell.py:105-111 | the nested loops compute the register function the laws below are about |
| FrameCheck.X25IsPolynomialCheck | outputs/k3765_linux_shell.py:105-111 | that register is the complemented remainder of the message polynomial divided by x^16 + x^12 + x^5 + 1, for every byte string |
| FrameCheck.GeneratorExponents | outputs/k3765_linux_shell.py:110 | the generator the constant stands for is x^16 + x^12 + x^5 + 1 |
| FrameCheck.AcceptsIffResidue | outputs/k3765_linux_shell.py:486-489 | comparing the trailer is the same as the register ending at 0xF0B8, the good value of appendix C of RFC 1662, when it starts as all ones |
| FrameCheck.BurstRejected | outputs/k3765_linux_shell.py:105-111 | no two different bodies of one length that differ only within sixteen bits are both accepted |
| FrameCheck.AdjacentBytesRejected | outputs/k3765_linux_shell.py:483-490 | replacing one byte or two adjacent bytes of an accepted body makes it rejected |
| Polynomial.RegisterDivides | outputs/k3765_linux_shell.py:105-111 | for any generator and start value, the shift register computes the remainder of long division |
| Bursts.BurstDetected | outputs/k3765_linux_shell.py:105-111 | for any generator with a constant term, inputs that differ within the register's length leave it different |
| Crc32.OfIsPolynomialCheck | work/build_armprg_stage0_monitor.py:180-198 | the monitor's check is the complemented remainder for the generator of section 8 of RFC 1952, for every byte string |
| Crc32.GeneratorExponents | work/build_armprg_stage0_monitor.py:181 | the generator the constant stands for has exactly the exponents of section 8 of RFC 1952 |
| Monitor.Checksum | work/build_armprg_stage0_monitor.py:180-198 | the value the target computes over its range is the complemented remainder of the division by that generator |
| Monitor.Cpu.CrcLoop | work/build_armprg_stage0_monitor.py:182-196 | the register loop terminates and folds exactly the bytes of its range in order |
| Monitor.Cpu.CrcChecked | work/build_armprg_stage0_monitor.py:169-198 | the carry and limit checks accept exactly the ranges inside the safe window, in unbounded arithmetic, and the result is then the polynomial check of the bytes in that range; others get the error word |
| Monitor.Cpu.ReplyHex | work/build_armprg_stage0_monitor.py:219-233 | the message buffer receives the eight-digit numeral of the value in the digits of the table, and NUL; nothing else changes |
| Hexadecimal.TopNibble | work/build_armprg_stage0_monitor.py:224-229 | the digit at the top of the shifted register is the quotient by the next power of sixteen |
| Hexadecimal.NumeralReads | work/build_armprg_stage0_monitor.py:219-231 | with the hexadecimal digits in the table, the numeral has the value that was spelled and no NUL |
| Hexadecimal.HexCharacters | outputs/k3765_linux_shell.py:671 | the characters read are 0-9, A-F and a-f, case does not matter, and the digits spelled read back |
| Monitor.ClaimedIsClaim | work/build_armprg_stage0_monitor.py:251-259 | a mailbox without the magic 0x534D494E becomes one that carries it with head and tail 0; one with the magic is untouched |
| Monitor.Cpu.FillLoop | work/build_armprg_stage0_monitor.py:272-282 | for any head and tail words the loop leaves the memory, the head and the list of stores that the raw fill gives, 32-bit wrap-around included |
| SharedMailbox.RawFillIsFill | work/build_armprg_stage0_monitor.py:272-282 | with the head in range the raw fill is the ring's fill and touches nothing but the mailbox |
| Monitor.Cpu.MailboxInput | work/build_armprg_stage0_monitor.py:251-289 | the input handler, on any mailbox at all, leaves the memory and makes the stores that the raw input function gives |
| Monitor.RawInputIsPush | work/build_armprg_stage0_monitor.py:251-289 | with the head in range that is the ring's push of the packet's arguments, and no byte outside the mailbox changes |
| Monitor.InputInRingIff | work/build_armprg_stage0_monitor.py:269-285 | every slot store is inside the ring if and only if the mailbox is unclaimed, or its head word is below 256, or the packet has no arguments, or the ring is full at the first comparison; the first store of a claimed mailbox goes to 0x008FF80C plus its head word |
| Monitor.Cpu.Body | work/build_armprg_stage0_monitor.py:86-237 | for every packet, the action its bytes decide on is carried out on memory and on the trace of calls |
| Monitor.Cpu.Handler | work/build_armprg_stage0_monitor.py:83-238 | for every packet in every sound mailbox state, sp, r4, r5, r6 and the return address come back, the packet's action is done, and without a second-stage call only the stack frame, the message buffer and the mailbox can differ |
| Monitor.CallsGated | work/build_armprg_stage0_monitor.py:200-214 | whatever the packet, the handler makes at most one indirect call, to a word-aligned address in 0x01000000..0x01FFFFFF, and afterwards stores to the message buffer only |
| Monitor.BodyConfined | work/build_armprg_stage0_monitor.py:83-290 | whatever is done for a packet other than a call leaves every byte outside the handler's own areas as it was |
| Monitor.BodyKeepsFrame | work/build_armprg_stage0_monitor.py:84-237 | no action, a second-stage call included, disturbs the saved registers before they are popped |
| Kernel.Driver.Borrow | kernel/drivers/timer-shadow-msm.c:155-165 | afterwards the translation base is init_mm's with the lock held and interrupts off, and TTBR, flag and need to restore are remembered |
| Translation.BasesAgreeIff | kernel/drivers/timer-shadow-msm.c:161-163 | the masked comparison finds two TTBR values equal if and only if they agree in bits 14 to 31 |
| Kernel.Driver.Emit | kernel/drivers/timer-shadow-msm.c:110-135 | the message is printed by one call under init_mm's base with the lock held, and TTBR, lock and interrupt flag come back |
| Kernel.Driver.InputReset | kernel/drivers/timer-shadow-msm.c:188-215 | head and tail become 0 and the magic 0x534D494E by exactly three stores, in that order, each under init_mm's base with the lock held; nothing else changes, and TTBR, lock and interrupt flag come back |
| Kernel.Driver.CopyLoop | kernel/drivers/timer-shadow-msm.c:171-176 | the copy loop puts the drained bytes at the front of the buffer, leaves the rest of it and leaves memory alone |
| Kernel.Driver.TakeTurn | kernel/drivers/timer-shadow-msm.c:167 | running the monitor on whatever packet has arrived changes the mailbox by exactly that packet's ring operation |
| Kernel.Driver.Receive | kernel/drivers/timer-shadow-msm.c:144-186 | one receive is the pending packet's push and then a pull; the buffer holds exactly what was pulled; every resident access, the monitor's call first, is made under init_mm's base with the lock held; TTBR, lock and interrupt flag come back |
| Kernel.HandledMailbox | kernel/drivers/timer-shadow-msm.c:167 | the handler's effect on memory is, on the mailbox, the ring operation of the packet it was entered with |
| Host.QueryAgrees | outputs/k3765_linux_shell.py:752-760 | every CRC query the host lets through is accepted by the target's check and answered with the checksum of that range, which Monitor.Checksum fixes |
| Host.QueryLayout | outputs/k3765_linux_shell.py:757-758 | a query is 1C 0C and then address and length as little-endian words |
| Host.QueryBounds | outputs/k3765_linux_shell.py:752-756 | the target admits exactly the ranges in 0x01000000..0x01FFFFFF, empty ones also at the end; the host admits the same except the empty range at the end |
| Host.CallAgrees | outputs/k3765_linux_shell.py:779-783 | the host's check admits exactly the aligned addresses in 0x01000000..0x01FFFFFF, and the target calls exactly those, with the arguments that were packed |
| Host.CallLayout | outputs/k3765_linux_shell.py:782-783 | a call is 1C 0D and then the address and three arguments as little-endian words |
| Host.QueryRoundTrip | outputs/k3765_linux_shell.py:653-672 | for every query let through, the one reply printed is read as a number that is the polynomial check of section 8 of RFC 1952 over the range as the handler found it |
| Host.Strip | outputs/k3765_linux_shell.py:649 | what is taken off a reply is all of its trailing NUL, CR and LF bytes and nothing else |
| Host.RegistersRoundTrip | work/build_armprg_stage0_monitor.py:86-167 | for every payload the host reads 0xBAD00001 if it is short or foreign, the numbered register for subcommands 1 to 10, the stack pointer for 11 and 0xBAD00000 for one above 14; subcommand 0 prints the text at 0x00811768 |
| Host.CallRoundTrip | work/build_armprg_stage0_monitor.py:200-233 | a call the host lets through is made once as asked, and the host reads back the value it returned |
| Host.BannerRoundTrip | outputs/k3765_linux_shell.py:668-670 | with any image the builder completes loaded, the banner request prints K3765-S0-V1, changes no memory, and the host accepts the reply |
| Delivery.SendLinuxInput | outputs/k3765_linux_shell.py:786-792 | the sender puts on the line the frames of the 64-byte pieces of its data, in order |
| Delivery.ChunksCover | outputs/k3765_linux_shell.py:789-790 | together the pieces are the data; all have 64 bytes but the last, which has 1 to 64 |
| Delivery.WireDecodes | outputs/k3765_linux_shell.py:786-792 | reading the line back frame by frame gives exactly those pieces in order |
| Delivery.PayloadIsInput | outputs/k3765_linux_shell.py:790-791 | to the handler each decoded piece is an input packet with that piece as its arguments |
| Delivery.LineDelivered | outputs/k3765_linux_shell.py:786-792 | end to end: sent, framed, decoded, enqueued and drained with any number of reads of any sizes, what comes out is the front of what was queued and the longest prefix of the data that fits, and what stays queued is the rest; nothing is lost if and only if the data fits the free space |
| Delivery.PollLosslessIffFits | kernel/drivers/tty-shadow-msm.c:67-75 | polling with any limits loses nothing if and only if every packet finds room when it arrives |
| Delivery.FullPacketsFit | kernel/drivers/tty-shadow-msm.c:67-75 | limits of at least a full packet always leave room, so input of any length gets through |
| Delivery.SlowReaderLoses | kernel/drivers/tty-shadow-msm.c:67-75 | limits that all stay below a full packet lose input once 193 full packets come in, whatever was queued |
| Delivery.OneByteReadsLose | kernel/drivers/tty-shadow-msm.c:67-75 | five full packets read one byte at a time from an empty ring lose input |
| Session.Poll | kernel/drivers/timer-shadow-msm.c:144-186 | a decoded input payload placed in memory, heard by the handler and followed by the driver's copy is the ring's push and pull |
| Session.ReceiveLine | kernel/drivers/tty-shadow-msm.c:67-75 | reading a line of frames one by one, with one receive each, gives the output and the mailbox of the ring's polling |
| Session.Deliver | outputs/k3765_linux_shell.py:786-792 | from the sender through line, memory, handler and driver: what came out and what is queued is what was queued and the data if and only if every packet found room |
| FdtWriter.BuildStrings | work/build_linux_handoff_dryrun.py:67-71 | every name's offset finds that name, NUL-terminated, in the strings block |
| FdtWriter.BuildDtb | work/build_linux_handoff_dryrun.py:57-135 | the filled image is the concatenation of header, reservations, structure and strings; it is refused exactly when a number does not fit its field |
| FdtParser.ParseFdt | kernel/verify_probe.py:72-151 | the loops terminate on every byte string within its bounds and return what the parsing function says |
| FdtParser.HeaderIff | kernel/verify_probe.py:73-98 | a header passes if and only if the blob has 40 bytes, starts with D0 0D FE ED, has the length it says, and holds both blocks; a short blob, a wrong magic and a wrong length are each reported as such, in that order |
| FdtParser.ReservesUpToZero | kernel/verify_probe.py:100-109 | on any blob the reservations read are the entries before the first (0, 0), and a blob that ends before one is refused |
| FdtParser.LexAt | kernel/verify_probe.py:116-149 | each token word is read as its kind, with name and value where the format puts them and the next token at a multiple of four; 4 is skipped and an unknown word refused |
| FdtParser.NameRefusedIff | kernel/verify_probe.py:65-69 | a name is read if and only if a NUL ends ASCII text before the limit; without a NUL it is unterminated, otherwise not ASCII |
| FdtParser.PropertyRefused | kernel/verify_probe.py:128-135 | a property is refused exactly when its two words, its value or its name offset leave their block, and each is reported as such |
| FdtParser.WalkIsMeaning | kernel/verify_probe.py:111-151 | the walk succeeds if and only if the tokens up to the end token are well nested, and then it denotes their dictionary; otherwise readable tokens are refused for the end or the begin too many |
| FdtParser.DepthIsNet | kernel/verify_probe.py:119-126 | well nested means that no prefix closes more nodes than it opens, and the depth left is the difference |
| FdtParser.ParseSound | kernel/verify_probe.py:72-151 | whenever the parser returns, the magic and the length were right, the tokens read balance and denote the result, and every recorded value is a slice of the structure block |
| FdtRoundTrip.TokensSpelled | kernel/verify_probe.py:116-149 | a spelled token list followed by the end token reads back as that list |
| FdtRoundTrip.NodeSpelled | work/build_linux_handoff_dryrun.py:44-54 | flattening any tree is spelling its token list |
| FdtRoundTrip.PropertiesFirst | work/build_linux_handoff_dryrun.py:50-54 | a node is written with its properties in order before its children |
| FdtRoundTrip.NodeMeaning | kernel/verify_probe.py:119-141 | the tokens of any tree leave depth and stack as they were and add exactly its entries |
| FdtRoundTrip.UpToZeroComplete | kernel/verify_probe.py:100-109 | the reservations read back are a prefix of those written, and all of them if and only if none is (0, 0) |
| FdtRoundTrip.BlobRoundTrip | kernel/verify_probe.py:72-151 | for every tree with ASCII NUL-free names the parser accepts the built blob and returns its reservations up to (0, 0) and its entries |
| FdtLookup.PathInjective | kernel/verify_probe.py:139-140 | different nodes have different paths when names are not empty and hold no slash |
| FdtLookup.PathGrows | kernel/verify_probe.py:139 | the root is "/", each named node adds a slash and its name, and unnamed nodes add nothing |
| FdtLookup.ExactIffConsistent | kernel/verify_probe.py:139-140 | the dictionary holds exactly the tree's (path, property) values if and only if the tree never holds two values at one place |
| FdtLookup.DistinctIsFunctional | work/build_linux_handoff_dryrun.py:73-105 | distinct property names in a node and distinct sibling names are enough for that |
| FdtLookup.TreeRoundTrip | kernel/verify_probe.py:72-151 | for every such tree and any reservations without (0, 0), parsing the built blob returns exactly those reservations and every (path, property) value |
| FdtLookup.TwinsLoseValue | kernel/verify_probe.py:139-140 | of two siblings with one name the first one's value is lost |
| Bundle.NeighboursSuffice | outputs/k3765_ram_bundle_load.py:210-218 | on sorted spans the neighbour comparison passes if and only if no two images clash |
| Bundle.SharesIsCommonByte | outputs/k3765_ram_bundle_load.py:215 | two images share an address exactly when both are not empty and their spans cross |
| Bundle.ClashIff | outputs/k3765_ram_bundle_load.py:215 | a clash is a shared byte or an empty image strictly inside the other, never both |
| Bundle.CheckIsDisjointnessIff | outputs/k3765_ram_bundle_load.py:206-218 | a bundle without a clash is one whose images share no byte and have no empty one strictly inside another; so the check is disjointness if and only if no such empty image decides it |
| Bundle.EmptyInsideRefused | outputs/k3765_ram_bundle_load.py:215 | an image and an empty one strictly inside it are refused though they share no byte |
| Bundle.CheckOverlap | outputs/k3765_ram_bundle_load.py:206-218 | sorting and comparing neighbours passes exactly the bundles in which no two images clash, in whatever order they were given |
| Bundle.Loader.WriteRam | outputs/k3765_ram_bundle_load.py:94-113 | it returns if and only if one of three attempts is acknowledged after silence, and then RAM is the old one with the chunk stored; whatever the attempts did, nothing outside the chunk changes |
| Bundle.Loader.Upload | outputs/k3765_ram_bundle_load.py:116-128 | the same for an image of any length sent in chunks |
| Bundle.Loader.Load | outputs/k3765_ram_bundle_load.py:160-218 | each refusal happens exactly for its cause, a range refusal exactly if some image is not in one of the two windows, and changes nothing; otherwise it succeeds if and only if every chunk is acknowledged, and then the monitor stands at 0x00800000 and every image is intact in RAM |
| Bundle.OutsideUntouched | outputs/k3765_ram_bundle_load.py:160-166 | whatever the outcome, no byte outside 0x00800000 and the 105,928 bytes from there and the two windows changes |
| Bundle.AllowedIffInWindow | outputs/k3765_ram_bundle_load.py:160-166 | an image is allowed if and only if all its addresses lie in 0x00208000..0x0077FFFF or all in 0x01000000..0x01FFFFFF; an empty one also at the end of either |
| Bundle.AcceptedIff | outputs/k3765_ram_bundle_load.py:106-112 | a chunk is acknowledged by the one byte 02 or a reply that begins with 0F, and retried after silence or an empty reply only |
| Bundle.ChunkCount | outputs/k3765_ram_bundle_load.py:116-120 | an image is sent in the fewest chunks of at most 1017 bytes |
| Patch.PatchTable | work/build_armprg_stage0_monitor.py:317-325 | the table loop succeeds if and only if every stock entry points into the image, and then rewrites exactly the table |
| Patch.PatchedReadsBack | work/build_armprg_stage0_monitor.py:307-332 | for every code that passes the length guards each region reads back what was written and all 28 entries are the handler's address |
| Patch.PatchedFramed | work/build_armprg_stage0_monitor.py:307-332 | every byte outside the patched regions is the stock byte |
| Patch.MessageStillStock | work/build_armprg_stage0_monitor.py:327-329 | the earlier patches leave the message region as it was, so its check is a check of the stock image |
| Patch.Build | work/build_armprg_stage0_monitor.py:60-368 | the builder succeeds exactly on buildable inputs, its image has every patch and no other change, each refusal is for its own cause, and its final check never fires |
| Patch.BuildableIff | work/build_armprg_stage0_monitor.py:60-329 | buildable means: the verified 105,928 bytes, all 28 table entries inside the image, the message "Invalid Command", a four-byte trampoline, and code of at most 544 and 468 bytes |
| Sdcc.CarryWord | kernel/drivers/sdcc-shadow-msm.c:327-356 | moving one more FIFO word extends the bytes covered in order, and the unused bytes of a short last word are zero |
| Sdcc.AwaitDecided | kernel/drivers/sdcc-shadow-msm.c:205-221 | the result of a wait depends only on the first poll that does not leave it waiting; an error bit wins over a wanted bit |
| Sdcc.CommandDecided | kernel/drivers/sdcc-shadow-msm.c:250-260 | the deciding poll fixes the command's error: -110 for a time-out bit, else -84 for a CRC bit that is checked and 0 for one that is not, else 0 for the terminal bit of its kind |
| Sdcc.PaceCompletesIff | kernel/drivers/sdcc-shadow-msm.c:327-366 | the FIFO loop completes if and only if some stretch of polls without an error or a timeout, read off the status bits, finds the FIFO ready once for each word needed |
| Sdcc.PaceAt | kernel/drivers/sdcc-shadow-msm.c:327-366 | and then the words it moves are those the FIFO showed at the polls that found it ready |
| Sdcc.PaceError | kernel/drivers/sdcc-shadow-msm.c:331-340 | an error bit before the last word ends the loop with -110 for a time-out, else -84 for a CRC failure, else -5 |
| Sdcc.TransferSucceedsIff | kernel/drivers/sdcc-shadow-msm.c:311-397 | a transfer succeeds if and only if the scatter list is long enough, all words move and DATA_END is seen before any error; a read with too short a list ends in -14 |
| Sdcc.EndDecided | kernel/drivers/sdcc-shadow-msm.c:367-377 | the wait for the end reports what the first deciding poll shows |
| Sdcc.SupportedIff | kernel/drivers/sdcc-shadow-msm.c:291-293 | a transfer is taken on if and only if it is one block of 1, 2, 4, ... or 512 bytes |
| Sdcc.TransferFramed | kernel/drivers/sdcc-shadow-msm.c:423-454 | DATACTRL is enabled exactly for a supported transfer that goes ahead, right before a read's command or right after a write's, and where it is disabled, last |
| Sdcc.StopLast | kernel/drivers/sdcc-shadow-msm.c:436-458 | the stop command is the last step, exactly after a command that succeeded and its transfer if there is one |
| Sdcc.DataReported | kernel/drivers/sdcc-shadow-msm.c:423-454 | the data error is -22 for a refusal, the command's own error if that failed, and otherwise 0 exactly if the transfer finishes |
| Sdcc.Host.WaitStatus | kernel/drivers/sdcc-shadow-msm.c:198-221 | for any polls the wait terminates with the result, the status and the polls left that the waiting function gives |
| Sdcc.Host.RunCommand | kernel/drivers/sdcc-shadow-msm.c:223-283 | the command is issued once and its error field is the result its polls decide |
| Sdcc.Host.MoveWords | kernel/drivers/sdcc-shadow-msm.c:327-366 | for any polls, exactly as many words move as find the FIFO ready, they match the bounce buffer in order, and success covers the whole size; a write leaves the buffer as it was |
| Sdcc.Host.Transfer | kernel/drivers/sdcc-shadow-msm.c:311-398 | the result is the one the polls decide; success means exactly ceil(size/4) words that match the scatter list and bytes_xfered at the size; every failure leaves bytes_xfered; DATACTRL and the error field are settled except on the early short-scatter return |
| Sdcc.Host.Request | kernel/drivers/sdcc-shadow-msm.c:400-466 | every path completes exactly once; each DATACTRL word that starts a transfer has the block size from bit 4, bit 0 set and bit 1 set exactly for a read; DATACTRL ends at 0 if and only if it is not a supported write with a short scatter list after a successful command; otherwise the data error is the one the polls decide, 0 exactly when the transfer was complete and faithful; the stop command's error is decided by the polls after the transfer, and untouched if it is not reached |
| Shell.ChunksDoNotMatter | kernel/userspace/shadow-init.c:407-451 | how reads split the input does not matter |
| Shell.FeedRunsSegments | kernel/userspace/shadow-init.c:428-450 | for any input the commands run are the edited forms of its segments that are not empty, in order; the next rows say what segments and edited forms are |
| Shell.LinesRunAsTyped | kernel/userspace/shadow-init.c:428-450 | any list of lines of 1 to 95 printable bytes, each ended by an LF, is run as it was typed, one prompt each |
| Shell.SegmentsRejoin | kernel/userspace/shadow-init.c:433-440 | every input is its LF-free segments joined with LFs |
| Shell.SegmentsJoined | kernel/userspace/shadow-init.c:433-440 | and LF-free lines joined with LFs are cut into exactly those lines |
| Shell.EditedPlain | kernel/userspace/shadow-init.c:447-449 | printable bytes are appended as they are up to 95 in the line, and dropped beyond that |
| Shell.OthersIgnored | kernel/userspace/shadow-init.c:431-449 | CR and every other byte outside 0x20..0x7F but LF and backspace changes nothing wherever it is typed |
| Shell.EraseUndoesIffRoom | kernel/userspace/shadow-init.c:442-449 | backspace or DEL undoes typing a printable byte if and only if the line was not full; a full line loses its last byte to it and an empty one nothing |
| Shell.Editor.Consume | kernel/userspace/shadow-init.c:428-450 | the loop over one read keeps the line inside its buffer, and the line, the commands handed on as NUL-terminated text and the prompts shown are those of the editor function |
| Shell.WriteUnsigned | kernel/userspace/shadow-init.c:153-182 | the text written for any 32-bit value is its canonical decimal numeral, of one to ten digits |
| Shell.CanonicalUnique | kernel/userspace/shadow-init.c:153-182 | a number has only one canonical numeral, so that contract fixes the text |

## Left out

- Monitor.Cpu.Handler: takes mailboxes whose indices are in range once claimed, which is all the two sides ever write; the print routine's own stores and the system registers' contents are not modelled; they are stock code and hardware, so printing appears as a trace entry and the registers as parameters.
- Kernel.Driver.Receive: addresses are those of the identity map, so the kernel's second mapping of the same memory is not modelled; caches, the TLB and the watchdog writes are left out as hardware behaviour the source does not define.
- Resets.ResetKeepsFifoIff: a reset is one step there; its three stores are single steps only under the lock, where nothing can come between them.
- FdtWriter.BuildDtb: builds any tree, where the source builds one constant tree; the constants of that tree are not repeated.
- Bundle.Loader.WriteRam: an attempt stores the whole chunk or nothing; the boot loader's own decoding is not modelled.
- Bundle.CheckOverlap: ties on (start, end) are not ordered by path, which cannot change the result.
- Patch.Build: the SHA-256 comparison is a parameter, and the assembled code is any byte strings that pass the guards.
- Sdcc.Host.Request: data is either a read or a write, as the MMC core guarantees; response registers hold arbitrary words; the trace messages, the argument and command register writes and the clock and power settings are not modelled.
- Shell.Editor.Consume: the commands themselves and the prompts' text are not modelled; a run command is recorded by its line.
- Serial ports, timeouts by the clock, USB enumeration, threads and terminal modes: a port is a byte sequence and a timeout is its end.
- The copies of the framing and check helpers in the other host tools, which are the same code, and the BL1 builders, probes and LED callbacks, which are mostly straight-line code and data.
