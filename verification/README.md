# Verified models of the FPGA user-space libraries

This project models, in Dafny 4.11, the stateful parts of the repository's C code and proves
properties of the models over all inputs, all runs and all behaviours of the devices at the
other end. `dafny verify dfyconfig.toml` checks it.

**The streaming DMA driver and its card** (`Sde*.dfy`). The host keeps a descriptor ring, a
table of buffers and a metadata ring for each direction and two rolling 32-bit credit counters.
The card is a concurrent peer: its shared state is one value (`SdeCard.Shared`), it changes by
single actions (`Apply`), and any sequence of actions may happen between two accesses of the
host (`Card.Run`, `Reaches`). The card takes descriptors out of a 64-entry RAM in order, moves
packets in order, writes a payload before its metadata entry, and writes its credit limit back
late. The host is the class `SdeMgmt` with two `DmaBuffer` objects. `Inv` is what holds in every
state of every run, failing calls included: no descriptor RAM overflows, what was delivered is
in order, the metadata ring is a window of the metadata log. On top of it a loopback transfer
of any size up to 64 packets reads back what was written (`SdeSession.LoopbackOnce`), and the
loopback program can never see its final comparison fail (`SdeSession.LoopbackSimple`). The
card can always finish a transfer it was given (`SdeLive.CardCanDeliver`), so this is not
vacuous.

**The virtual JTAG server** (`Xvc*.dfy`). The command parser is compared with a parser of the
whole byte stream (`XvcStream.ParseAll`), the server with a function of the pieces it receives
(`XvcServer.Serve`), and the 32-bit shift engine with a bit-serial machine (`XvcShift.Chain`).
`XvcEngine.ConnectionIsShift` joins the two: a whole connection is one shift of all its bits.

**The AFI mailbox** (`MboxHal`, `MboxDriver`, `MboxCmd`, `MgmtImage`, `MgmtSync`). The mailbox
registers are a class whose device acts before every access. A flag says whether the device is
known to answer only what it was asked; results that need this say so.

**The clock generator** (`Clkgen*.dfy`). Every successful register access of an API call is
recorded; `Safe` says what the record of a call must look like. Frequencies are exact reals.

**Vectored I/O and slot numbering** (`IoVec`, `Slots`). `Bits` and `Modular` hold the arithmetic
that the others share.

Register and memory accesses, system calls and the contents of directories are nondeterministic
or parameters. A failing access has no effect. Where the code and its comments disagree the model
follows the code. Some properties one might expect are false, and are stated as they are:

- A synchronous load or clear may return 0 without the image: when the last poll fails or shows
  another status, the code is the status qualifier read last, 0 if none was ever read
  (`MgmtSync.ZeroMeansReached` and `MgmtSync.LastQZero` give the exact condition).
- A synchronous load of an AFI id that is empty or has more than 63 characters fails its own check
  even when the device reports the id it was sent (`MgmtImage.IdComesBack`).
- A mailbox response that is an error with code 0 is accepted as success, whatever its id
  (`MboxCmd.ValidateAccepts`, `MboxCmd.HollowErrorAccepted`).
- A JTAG stream that breaks the protocol may get different replies for different fragmentations,
  exactly when some command with a reply fits the receive buffer together with what follows it up
  to where the breach shows (`XvcServer.SplitMatters`). A shift that the buffer cannot hold counts
  as a breach, because an assertion then stops the program.
- Slot numbers are independent of directory order exactly with at most eight devices, or, when some
  cannot be read, with fewer than eight others and one error code (`Slots.OrderFreeIff`); and a
  repeated call that moves no bytes keeps a vectored loop going for ever (`IoVec.StillRunning`).

## Model

| member | source | states |
|---|---|---|
| SdeDesc.DecodeEncode | hdk/cl/examples/cl_sde/software/src/sde_lib/sde_hw_regs.h:28-54 | the packed dword layouts of both descriptor structs lose nothing: decoding the dwords of a descriptor gives it back |
| SdeDesc.CyclicDecodes | hdk/cl/examples/cl_sde/software/src/sde_lib/sde_hw_ctrl.c:266-287 | a card that sees only dwords frames descriptor k of a cyclic stream as ring entry k modulo the ring size |
| SdeDesc.NextNibble | hdk/cl/examples/cl_sde/software/src/sde_lib/sde_dma_buffer.c:60-73 | the next start dword of the one carrying nibble n carries n + 1 modulo 16, four times over |
| SdeDesc.UserNibbles | hdk/cl/examples/cl_sde/software/src/sde_lib/sde_dma_buffer.c:109-128 | H2C descriptor i of an initialised ring names buffer i modulo the number of buffers, has EOP set and SPB clear, and carries nibbles 1 + i and 2 + i modulo 16 in its user word |
| SdeCard.CreditBoundsRam | hdk/cl/examples/cl_sde/software/src/sde_lib/sde_hw_ctrl.c:185-187 | while posted descriptors stay within a limit of at most 64 more than the card took, at most 64 are in the RAM |
| SdeCard.KeepInv | hdk/cl/examples/cl_sde/software/src/sde_lib/sde_mgmt.c:316-456 | any sequence of card actions keeps every invariant of a run and only adds to what was fetched, landed and logged |
| SdeCard.KeepTransfer | hdk/cl/examples/cl_sde/software/src/sde_loopback_simple.c:92-120 | any sequence of card actions keeps a loopback transfer intact: packets are fetched as they stood in the H2C buffers, and H2C buffers are not written |
| SdeCard.PostedInv | hdk/cl/examples/cl_sde/software/src/sde_lib/sde_hw_ctrl.c:266-287 | posting any number of dwords within the credit keeps the invariants, however the card acts before each poke; no descriptor is lost to overflow |
| SdeCard.PostedTransfer | hdk/cl/examples/cl_sde/software/src/sde_loopback_simple.c:92-112 | posting ring descriptors within credit and within the transfer keeps the transfer intact |
| SdeDmaBuffer.GetPut | hdk/cl/examples/cl_sde/software/src/sde_lib/sde_dma_buffer.c:168-222 | data copied into a cyclic table of equal buffers from any index is copied out again unchanged from that index, and no other buffer is touched, as long as it fits the table |
| SdeDmaBuffer.PostContinues | hdk/cl/examples/cl_sde/software/src/sde_lib/sde_dma_buffer.c:138-166 | posting n descriptors from the ring position continues the infinite cyclic dword stream, for any n |
| SdeDmaBuffer.PostCycles | hdk/cl/examples/cl_sde/software/src/sde_lib/sde_dma_buffer.c:138-166 | one post of any number of descriptors, also more than the ring holds, takes the ring position and the dword stream from w descriptors posted to w + n |
| SdeDmaBuffer.PostRunCycles | hdk/cl/examples/cl_sde/software/src/sde_lib/sde_dma_buffer.c:138-166 | over any sequence of posts, with the card acting in between, the card frames ring[0], ring[1], ... going round the ring, and as many dwords went out as the posts asked for |
| SdeDmaBuffer.DmaBuffer.Init | hdk/cl/examples/cl_sde/software/src/sde_lib/sde_mem.c:59-96 | one buffer of packet length for every address handed out, 64 descriptors, both indices 0 |
| SdeDmaBuffer.DmaBuffer.InitDescBuffer | hdk/cl/examples/cl_sde/software/src/sde_lib/sde_dma_buffer.c:94-136 | fails without effect if there are no buffers; otherwise ring entry i is built from buffer i modulo the number of buffers and both indices are 0 |
| SdeDmaBuffer.DmaBuffer.InitC2h | hdk/cl/examples/cl_sde/software/src/sde_lib/sde_dma_buffer.c:101-108 | C2H ring entries: length and address of their buffer, reserved word 0 |
| SdeDmaBuffer.DmaBuffer.InitH2c | hdk/cl/examples/cl_sde/software/src/sde_lib/sde_dma_buffer.c:109-128 | H2C ring entries by the running start dwords equal the closed form for every i |
| SdeDmaBuffer.DmaBuffer.PokeDesc | hdk/cl/examples/cl_sde/software/src/sde_lib/sde_hw_ctrl.c:278-282 | the dwords of one descriptor are poked in order with the card acting in between, or a prefix of them if a poke fails |
| SdeDmaBuffer.DmaBuffer.HwPost | hdk/cl/examples/cl_sde/software/src/sde_lib/sde_hw_ctrl.c:266-287 | the dwords of count consecutive ring entries, in order, or a prefix if a poke fails |
| SdeDmaBuffer.DmaBuffer.PostDesc | hdk/cl/examples/cl_sde/software/src/sde_lib/sde_dma_buffer.c:138-166 | the dwords of num entries from the ring position on, going round the ring, or a prefix if a poke fails; on success the position advances by num modulo the ring size; the loop ends |
| SdeDmaBuffer.DmaBuffer.WriteData | hdk/cl/examples/cl_sde/software/src/sde_lib/sde_dma_buffer.c:196-222 | memory becomes that of the recursive cyclic copy, nothing else of the shared state changes, and the index ends where that copy ends (at least one buffer on) |
| SdeDmaBuffer.DmaBuffer.ReadData | hdk/cl/examples/cl_sde/software/src/sde_lib/sde_dma_buffer.c:168-194 | the bytes are those of the recursive cyclic copy out of the buffers, and the index ends where that copy ends |
| SdeRun.CreditsExact | hdk/cl/examples/cl_sde/software/src/sde_lib/sde_mgmt.c:327-338 | the 32-bit difference of the written-back limit and the consumed counter is the true number of credits, at most 64, however often both have wrapped and however late the write-back is |
| SdeRun.CreditsAfterReset | hdk/cl/examples/cl_sde/software/src/sde_lib/sde_mgmt.c:151-162 | after a reset, which rewrites the limit but not the consumed counter, the credits seen are 64 exactly when the counter stands at 0, and at most 64 exactly when it is at most 64 |
| SdeRun.PostKeeps | hdk/cl/examples/cl_sde/software/src/sde_lib/sde_mgmt.c:349-367 | a post for which credit is in hand, complete or cut short by a failing poke, keeps every invariant with the whole request charged |
| SdeRun.MdFifo | hdk/cl/examples/cl_sde/software/src/sde_lib/sde_mgmt.c:391-424 | a successful metadata read returns the entry number mdRead of those the card wrote, as long as the card was never more than 64 ahead; the five accesses may each happen at a different instant |
| SdeRun.HeadStays | hdk/cl/examples/cl_sde/software/src/sde_lib/sde_mgmt.c:407-414 | a valid metadata slot stays as it is under any card activity until the host clears it |
| SdeRun.BuffersUsedIs | hdk/cl/examples/cl_sde/software/src/sde_lib/sde_mgmt.c:371-386 | a copy of size > 0 bytes goes through size / pkt_size buffers, rounded up |
| SdeRun.NextIndexIs | hdk/cl/examples/cl_sde/software/src/sde_lib/sde_dma_buffer.c:168-222 | a copy advances the buffer index by that number, modulo the table size |
| SdeRun.ReadStep | hdk/cl/examples/cl_sde/software/src/sde_lib/sde_mgmt.c:436-450 | one more payload extends what was read by its bytes, or by the part still asked for |
| SdeProgress.PendingTook | hdk/cl/examples/cl_sde/software/src/sde_lib/sde_mgmt.c:391-424 | taking a metadata entry strictly lowers the number of entries still to come, even after an overrun |
| SdeProgress.PendingReaches | hdk/cl/examples/cl_sde/software/src/sde_lib/sde_mgmt.c:391-424 | the card never adds to that number and never takes a valid bit back |
| SdeLoopback.PutTurn | hdk/cl/examples/cl_sde/software/src/sde_lib/sde_mgmt.c:458-483 | a turn of the prepare_write loop brings the H2C buffers nearer to the result of the whole copy, with the card changing other memory meanwhile |
| SdeLoopback.GetIsFlatten | hdk/cl/examples/cl_sde/software/src/sde_lib/sde_dma_buffer.c:168-194 | reading buffers from an index on is reading the packets in them one after the other, cut at size |
| SdeLoopback.PacketsCarry | hdk/cl/examples/cl_sde/software/src/sde_loopback_simple.c:93-117 | data spread over the H2C buffers is the front of the packets that then stand in them |
| SdeLoopback.ReadBack | hdk/cl/examples/cl_sde/software/src/sde_loopback_simple.c:92-120 | at the end of a transfer the bytes read are the front of the transfer's packets, exactly those packets were taken, and none is left on the way |
| SdeLoopback.PostStage | hdk/cl/examples/cl_sde/software/src/sde_lib/sde_mgmt.c:349-389 | posting n ring descriptors with credit moves a transfer on by n descriptors and leaves the other direction alone |
| SdeRead.TurnReads | hdk/cl/examples/cl_sde/software/src/sde_lib/sde_mgmt.c:436-450 | a turn of the read_data loop adds the next payload, or the part still asked for, and goes through exactly one buffer, in step with the metadata |
| SdeRead.TurnTransfer | hdk/cl/examples/cl_sde/software/src/sde_lib/sde_mgmt.c:436-450 | a turn of the read_data loop leaves a transfer under way intact |
| SdeRead.TurnPending | hdk/cl/examples/cl_sde/software/src/sde_lib/sde_mgmt.c:436-450 | a turn of the read_data loop lowers the number of entries still to come, so the loop ends |
| SdeRead.WholeTurn | hdk/cl/examples/cl_sde/software/src/sde_lib/sde_mgmt.c:436-450 | a turn keeps the invariants and the streams, moves the buffer index on by the buffers used, and has the three effects above |
| SdeWrite.CardAgrees | hdk/cl/examples/cl_sde/software/src/sde_lib/sde_mgmt.c:458-483 | while only ring descriptors were posted, no card activity changes an H2C buffer |
| SdeWrite.FillStep | hdk/cl/examples/cl_sde/software/src/sde_lib/sde_mgmt.c:471-479 | a turn of the prepare_write loop against the result of the whole copy |
| SdeWrite.FillTransfer | hdk/cl/examples/cl_sde/software/src/sde_lib/sde_mgmt.c:471-479 | preparing the next write between transfers does not disturb the card's side |
| SdeStart.RunBegins | hdk/cl/examples/cl_sde/software/src/sde_lib/sde_mgmt.c:105-119 | after init, reset and cfg every invariant holds and a loopback transfer may begin |
| SdeStart.MultiBegins | hdk/cl/examples/cl_sde/software/src/sde_lib/sde_dma_buffer.c:94-136 | the rings and tables that init and cfg set up are the MULTI layout: 64 descriptors over 64 distinct buffers in either direction |
| SdeMgmt.SdeMgmt.RamSafe | hdk/cl/examples/cl_sde/software/src/sde_lib/sde_mgmt.c:316-389 | in every valid state no descriptor RAM holds more than 64 descriptors, none was lost, and posted <= consumed <= limit <= 64 + taken |
| SdeMgmt.SdeMgmt.Init | hdk/cl/examples/cl_sde/software/src/sde_lib/sde_mgmt.c:55-103 | initialised exactly on success; packet sizes 0 and above 2 MiB fail; counters, index and metadata start at zero, buffers at the given addresses |
| SdeMgmt.SdeMgmt.Reset | hdk/cl/examples/cl_sde/software/src/sde_lib/sde_mgmt.c:140-166 | puts limits, status and metadata index back, but not the consumed counters; no effect on failure |
| SdeMgmt.SdeMgmt.Cfg | hdk/cl/examples/cl_sde/software/src/sde_lib/sde_mgmt.c:292-314 | loopback mode on and both rings initialised, buffers unchanged |
| SdeMgmt.SdeMgmt.InitAndCfg | hdk/cl/examples/cl_sde/software/src/sde_lib/sde_mgmt.c:105-119 | a successful set-up leaves a valid state with nothing posted, all indices 0 and a transfer ready to begin |
| SdeMgmt.SdeMgmt.WaitDescCredit | hdk/cl/examples/cl_sde/software/src/sde_lib/sde_mgmt.c:316-347 | success if and only if, at the last poll, the total consumed plus the request was within the card's limit; otherwise a timeout; a request above 64 is refused |
| SdeMgmt.SdeMgmt.PostC2h | hdk/cl/examples/cl_sde/software/src/sde_lib/sde_mgmt.c:349-367 | the whole request is charged even when a poke fails; the ring position advances on success; with credit in hand the state stays valid |
| SdeMgmt.SdeMgmt.PostH2c | hdk/cl/examples/cl_sde/software/src/sde_lib/sde_mgmt.c:349-367 | the same on the H2C side |
| SdeMgmt.SdeMgmt.StartRead | hdk/cl/examples/cl_sde/software/src/sde_lib/sde_mgmt.c:369-389 | success means that the descriptors for size / pkt_size packets, rounded up, went out with credit for all of them; size 0 does nothing; every outcome leaves a valid state |
| SdeMgmt.SdeMgmt.Write | hdk/cl/examples/cl_sde/software/src/sde_lib/sde_mgmt.c:485-506 | the same on the H2C side, with size 0 refused |
| SdeMgmt.SdeMgmt.CheckStatus | hdk/cl/examples/cl_sde/software/src/sde_lib/sde_mgmt.c:168-193 | the card may act and the state stays valid; the status error is returned if and only if one of the three error bits of the status word read is set |
| SdeMgmt.SdeMgmt.ReadMd | hdk/cl/examples/cl_sde/software/src/sde_lib/sde_mgmt.c:391-424 | success returns the next metadata entry the card wrote, unless it ran more than 64 ahead; otherwise a timeout, with the entry not valid and the index unmoved |
| SdeMgmt.SdeMgmt.ReadData | hdk/cl/examples/cl_sde/software/src/sde_lib/sde_mgmt.c:426-456 | success returns size bytes: the payloads that landed from the read index on, in order, cut at size, unless the card overran; a transfer under way stays intact |
| SdeMgmt.SdeMgmt.PrepareWrite | hdk/cl/examples/cl_sde/software/src/sde_lib/sde_mgmt.c:458-483 | the H2C buffers end up as the cyclic copy of the data makes them, whatever the card did meanwhile, and the index advances by size / pkt_size rounded up |
| SdeSession.IndexLockstep | hdk/cl/examples/cl_sde/software/src/sde_loopback_simple.c:92-120 | between transfers the two buffer indices, the two post indices and the metadata index are all equal |
| SdeSession.CardCompletes | hdk/cl/examples/cl_sde/software/src/sde_loopback_simple.c:109-116 | once both sides are posted the card can deliver all packets of the transfer |
| SdeSession.LoopbackOnce | hdk/cl/examples/cl_sde/software/src/sde_loopback_simple.c:92-120 | for any size from 1 byte to 64 packets and any behaviour of the card, if all calls return 0 the bytes read are the bytes written, and the next transfer may begin; every failure leaves a valid state |
| SdeSession.LoopbackSimple | hdk/cl/examples/cl_sde/software/src/sde_loopback_simple.c:56-136 | whenever the program reaches its final comparison the buffers are equal and 0 is returned; a non-zero result always comes from a call |
| SdeLive.CardCanDeliver | hdk/cl/examples/cl_sde/software/src/sde_loopback_simple.c:92-120 | from any state of a transfer whose descriptors are all posted some card activity delivers every packet with a valid metadata entry |
| SdeMem.AlignedSizeIs | hdk/cl/examples/cl_sde/software/src/sde_lib/sde_utility.c:43-45 | with a power-of-two alignment the bit trick yields the least multiple not below size if the sum fits size_t, and 0 otherwise |
| SdeMem.RegionsDisjoint | hdk/cl/examples/cl_sde/software/src/sde_lib/sde_mem.c:29-53 | for any element sizes whose total fits size_t the metadata, descriptor and status regions start 64-aligned, do not overlap, and lie inside the mapped memory, in both directions |
| XvcShift.ShiftBits | sdk/userspace/fpga_mgmt_tools/src/virtual_jtag_pcie.c:66-109 | a transaction clocks the number of bits in the length register, in order, or on an error a prefix of them; success returns the machine's answers; at most 101 register reads |
| XvcShift.AwaitShift | sdk/userspace/fpga_mgmt_tools/src/virtual_jtag_pcie.c:86-103 | at most 100 polls; success means that all bits are out |
| XvcShift.ShiftChunk | sdk/userspace/fpga_mgmt_tools/src/virtual_jtag_pcie.c:139-171 | one chunk of at most 32 bits: copied over the stale stores, shifted, and the answer copied to its place |
| XvcShift.ShiftTmsTdi | sdk/userspace/fpga_mgmt_tools/src/virtual_jtag_pcie.c:112-175 | for any bit count and any machine the chain sees exactly the first bitcount (tms, tdi) pairs in order and the output buffer holds its answers, or on an error a prefix was clocked; bytes beyond the vector are untouched; at most 101 register reads per 32 bits |
| XvcShift.RunConcat | sdk/userspace/fpga_mgmt_tools/src/virtual_jtag_pcie.c:131-171 | clocking two vectors one after the other is clocking their concatenation |
| XvcStream.ParseMore | sdk/userspace/fpga_mgmt_tools/src/virtual_jtag_server.c:151-262 | more bytes never change the verdict on a command; a command that is short of bytes is longer than what is there |
| XvcStream.ParseSplit | sdk/userspace/fpga_mgmt_tools/src/virtual_jtag_server.c:138-276 | parsing a piece and then what was left over with the rest is parsing the whole |
| XvcStream.RoomLeft | sdk/userspace/fpga_mgmt_tools/src/virtual_jtag_server.c:195-199 | what is left over of a stream that keeps the protocol never fills the buffer |
| XvcStream.ErrorShows | sdk/userspace/fpga_mgmt_tools/src/virtual_jtag_server.c:157-200 | a breach of the protocol shows exactly from a certain number of bytes on, at most 30: 30 without a colon, the name with its colon, or the 10 header bytes of a shift the buffer cannot hold; before that more bytes are waited for |
| XvcStream.ParseEncodeAll | sdk/userspace/fpga_mgmt_tools/src/virtual_jtag_server.c:151-262 | any sequence of commands as a client encodes it parses back to that sequence with nothing left over, up to the first command that does not fit the receive buffer; the stream counts as broken if and only if there is such a command |
| XvcServer.InfoText | sdk/userspace/fpga_mgmt_tools/src/virtual_jtag_server.c:174-177 | for the buffer the program allocates, the reply to getinfo is the 21 bytes of "xvcServer_v1.0:10000" and a newline |
| XvcServer.GetUintLe | sdk/userspace/fpga_mgmt_tools/src/virtual_jtag_server.c:106-114 | the little-endian value of the bytes, without overflow for up to four |
| XvcServer.SetUintLe | sdk/userspace/fpga_mgmt_tools/src/virtual_jtag_server.c:116-123 | the little-endian bytes of the value |
| XvcServer.ServeIsWhole | sdk/userspace/fpga_mgmt_tools/src/virtual_jtag_server.c:138-276 | however the stream was cut, the commands executed are those of the whole stream, in order; the replies sent are all of theirs, or a front of them after a protocol error |
| XvcServer.FragmentationIndependence | sdk/userspace/fpga_mgmt_tools/src/virtual_jtag_server.c:138-276 | two ways to cut a stream lead to the same commands and target state, and to the same session if the protocol is kept |
| XvcServer.CompleteIsWhole | sdk/userspace/fpga_mgmt_tools/src/virtual_jtag_server.c:138-280 | every connection that serves a stream in pieces recv can make, to its end or to the breach, executes exactly the commands of the stream and sends all their replies, or a front of them after a breach |
| XvcServer.SplitMatters | sdk/userspace/fpga_mgmt_tools/src/virtual_jtag_server.c:254-280 | over all ways recv can cut a stream of any length, the replies depend on the cut if and only if the stream breaks the protocol and some command with a reply fits the buffer together with what follows it up to where the breach shows |
| XvcServer.AlwaysRoom | sdk/userspace/fpga_mgmt_tools/src/virtual_jtag_server.c:266-274 | until the protocol is broken recv is always offered at least one byte |
| XvcServer.XvcClient.ConsumePacket | sdk/userspace/fpga_mgmt_tools/src/virtual_jtag_server.c:131-135 | what is left is the data without its first len bytes, at the front of the buffer |
| XvcServer.XvcClient.Front | sdk/userspace/fpga_mgmt_tools/src/virtual_jtag_server.c:151-252 | the tests of the loop compute the parse of the bytes from cbuf on |
| XvcServer.XvcClient.Batch | sdk/userspace/fpga_mgmt_tools/src/virtual_jtag_server.c:147-262 | executes and answers exactly the complete commands in the buffer |
| XvcServer.XvcClient.Digest | sdk/userspace/fpga_mgmt_tools/src/virtual_jtag_server.c:147-264 | one pass: the session is that of the piece received, unless sending fails |
| XvcServer.XvcClient.ReadPacket | sdk/userspace/fpga_mgmt_tools/src/virtual_jtag_server.c:138-280 | the connection behaves as the function of the pieces it received, and those are pieces recv can make; unless sending or receiving fails the whole stream is served, up to a breach of the protocol |
| XvcEngine.HoldsUnlessWrapped | sdk/userspace/fpga_mgmt_tools/src/virtual_jtag_server.c:191-207 | the vectors of a shift hold its bits if and only if the bit count is below 2^32 - 7, where the 32-bit byte count wraps to 0 |
| XvcEngine.ShiftCommand | sdk/userspace/fpga_mgmt_tools/src/virtual_jtag_server.c:201-217 | the call of the shift engine on the vectors of a parsed command leaves the chain where the bit-serial machine would, and the reply carries its answers |
| XvcEngine.OneLongShift | sdk/userspace/fpga_mgmt_tools/src/virtual_jtag_server.c:186-219 | a list of commands does to the chain what one shift of all their bits does, and the replies carry the answers of that one shift |
| XvcEngine.ConnectionIsShift | sdk/userspace/fpga_mgmt_tools/src/virtual_jtag_server.c:138-280 | over any connection, however recv cuts the stream, the chain is clocked with exactly the bits of the shifts in the stream, in order, as long as no byte count wraps |
| MboxDriver.Reset | sdk/userspace/fpga_libs/fpga_mgmt/fpga_hal_mbox.c:68-86 | one status read; on success the events it showed were acknowledged; the command window is untouched |
| MboxDriver.ReadAsync | sdk/userspace/fpga_libs/fpga_mgmt/fpga_hal_mbox.c:142-200 | one status read; every exit after a response event was seen has tried to acknowledge it and no other has; success returns the words of the response as they stood when it was seen, 4 to 4096 bytes; failure leaves the length as it was |
| MboxDriver.FetchWords | sdk/userspace/fpga_libs/fpga_mgmt/fpga_hal_mbox.c:170-182 | the words of the auto-incrementing window, in order, over the front of the buffer |
| MboxDriver.TcAck | sdk/userspace/fpga_libs/fpga_mgmt/fpga_hal_mbox.c:204-225 | one status read; reports whether it showed the transmit event and, if so, that event is cleared; the command window is untouched |
| MboxDriver.WriteAsync | sdk/userspace/fpga_libs/fpga_mgmt/fpga_hal_mbox.c:228-264 | a bad length is refused before any access; success leaves the words at the front of the window with their number in the length register and hands over exactly them; failure hands over nothing |
| MboxDriver.Read | sdk/userspace/fpga_libs/fpga_mgmt/fpga_hal_mbox.c:267-296 | at most timeout status reads; success returns a response that was taken whole; failure leaves the length as it was |
| MboxDriver.Write | sdk/userspace/fpga_libs/fpga_mgmt/fpga_hal_mbox.c:299-330 | at most timeout + 1 status reads; hands over the command at most once; success means that, with it in the window, the device signalled that it took it |
| MboxDriver.EchoRoundTrip | sdk/userspace/fpga_libs/fpga_mgmt/fpga_hal_mbox.c:142-264 | what write_async leaves in the window is, echoed, what read_async returns, word for word and with the same length |
| MboxCmd.HeaderWord | sdk/userspace/fpga_libs/fpga_mgmt/fpga_mgmt_cmd.c:38-101 | length and flags share a word without disturbing one another; out-of-range values are refused without effect |
| MboxCmd.CommandIds.Next | sdk/userspace/fpga_libs/fpga_mgmt/fpga_mgmt_cmd.c:112-121 | until the counter stands at 0 again the ids handed out are consecutive and pairwise different; it is recorded when it is seeded again |
| MboxCmd.ValidateAccepts | sdk/userspace/fpga_libs/fpga_mgmt/fpga_mgmt_cmd.c:362-409 | a response passes if and only if it matches major version, opcode, id, lengths and response flag, or is an error response with code 0 |
| MboxCmd.AcceptedMatches | sdk/userspace/fpga_libs/fpga_mgmt/fpga_mgmt_cmd.c:362-409 | an accepted response is to this command if and only if it is not such an error response |
| MboxCmd.HollowErrorAccepted | sdk/userspace/fpga_libs/fpga_mgmt/fpga_mgmt_cmd.c:324-349 | a concrete error response with another id and code 0 that is accepted |
| MboxCmd.EchoRefused | sdk/userspace/fpga_libs/fpga_mgmt/fpga_mgmt_cmd.c:396-397 | a request echoed back is never accepted |
| MboxCmd.ErrorsIgnoreIds | sdk/userspace/fpga_libs/fpga_mgmt/fpga_mgmt_cmd.c:377-404 | an error response is reported as this command's error whatever its id |
| MboxCmd.AcceptedIsCurrent | sdk/userspace/fpga_libs/fpga_mgmt/fpga_mgmt_cmd.c:362-450 | with an id-copying device, error codes other than 0 and ids that stand for one command each, an accepted response answers the last command and no other; if that was not posted before, it answers this very posting |
| MboxCmd.NewCommand | sdk/userspace/fpga_libs/fpga_mgmt/fpga_mgmt_cmd.c:112-121 | a command with an id the counter has just handed out is different from all on record |
| MboxCmd.PostedAgain | sdk/userspace/fpga_libs/fpga_mgmt/fpga_mgmt.c:120-132 | posting it, and posting it again with any length that includes the header, keeps ids standing for one command each |
| MboxCmd.SendCmd | sdk/userspace/fpga_libs/fpga_mgmt/fpga_mgmt_cmd.c:412-450 | at most 3 * timeout + 1 status reads and one drained response; success means an accepted response in the buffer; failure leaves the length of the command or that of the response read last |
| MboxCmd.ProcessCmd | sdk/userspace/fpga_libs/fpga_mgmt/fpga_mgmt_cmd.c:453-467 | at most 3 * timeout + 2 status reads; success means a matching response or an error with code 0, and with a well-behaved device and ids that stand for one command each a response to this command and to no other; the length is as SendCmd leaves it |
| MgmtImage.GetShVersion | sdk/userspace/fpga_libs/fpga_mgmt/fpga_mgmt.c:81-101 | success returns the shell version register; a slot out of range is refused; at most one status read |
| MgmtImage.DescribeCmd | sdk/userspace/fpga_libs/fpga_mgmt/fpga_mgmt.c:103-178 | at most 32 exchanges; without an accepted response to a metrics command the structure is untouched and the code is not 0; with one it holds its status, qualifier, AFI id and PCI ids, a passed-on reload request reading as busy; until the id counter wraps, a well-behaved device has answered this very call, retries included, and the record of commands stays in order for the next |
| MgmtImage.Ask | sdk/userspace/fpga_libs/fpga_mgmt/fpga_mgmt.c:120-132 | the exchanges of a describe call: each posts the same command with the length the one before left, and the answer is to that command and to no other on record |
| MgmtImage.Store | sdk/userspace/fpga_libs/fpga_mgmt/fpga_mgmt.c:137-177 | the same for the second half, where the code of a reload request that could not be passed on is lost to an inner variable |
| MgmtImage.Await | sdk/userspace/fpga_libs/fpga_mgmt/fpga_mgmt.c:589-618 | at most limit + 1 polls, all but the last busy; the code and the end are determined by the last poll, for a refused one by the qualifier read last; an image that was seen is what a well-behaved device answered to a describe command begun here |
| MgmtImage.LoadBodyCarries | sdk/userspace/fpga_libs/fpga_mgmt/fpga_mgmt_cmd.c:128-156 | a device that reads a load command by its layout finds the first 63 bytes of the AFI id, the flags, and the three clocks in Hz modulo 2^32 |
| MgmtImage.IdComesBack | sdk/userspace/fpga_libs/fpga_mgmt/fpga_mgmt.c:595-600 | a device that reports the id it was sent passes the check of a synchronous load if and only if the id has 1 to 63 characters |
| MgmtSync.Finish | sdk/userspace/fpga_libs/fpga_mgmt/fpga_mgmt.c:620-656 | a rescan is attempted exactly when the shell version was read and it or one of the four ids differs; the caller's structure is written only on success |
| MgmtSync.Begin | sdk/userspace/fpga_libs/fpga_mgmt/fpga_mgmt.c:575-587 | success means that the command was handed to the device |
| MgmtSync.Complete | sdk/userspace/fpga_libs/fpga_mgmt/fpga_mgmt.c:575-659 | polling, the rest and the caller's structure for either operation; an image reported by a well-behaved device was the answer to a describe command of this call |
| MgmtSync.ZeroMeansReached | sdk/userspace/fpga_libs/fpga_mgmt/fpga_mgmt.c:589-618 | code 0 means the wanted image, or a refused last poll with the last qualifier read, if any, 0; and only these |
| MgmtSync.ZeroWithoutImage | sdk/userspace/fpga_libs/fpga_mgmt/fpga_mgmt.c:589-617 | every operation ended by a poll that failed or showed another status returns 0 if no poll stored a status |
| MgmtSync.LastQZero | sdk/userspace/fpga_libs/fpga_mgmt/fpga_mgmt.c:613-617 | the qualifier returned is 0 if and only if no poll stored one or the last that did stored 0 |
| MgmtSync.FirstPollFails | sdk/userspace/fpga_libs/fpga_mgmt/fpga_mgmt.c:589-617 | whatever the timeout, a load whose first poll fails is such an operation |
| MgmtSync.LoadSync | sdk/userspace/fpga_libs/fpga_mgmt/fpga_mgmt.c:544-659 | the load command, with AFI id, flags and clocks, was handed over before the first of at most max(timeout, 90000) + 1 polls; the caller's structure is written if and only if the last poll saw the image loaded, with the requested id unless prefetching, and the rest succeeded; until the id counter wraps, a well-behaved device has answered a describe command of this call with it; rescans as in Finish |
| MgmtSync.ClearSync | sdk/userspace/fpga_libs/fpga_mgmt/fpga_mgmt.c:361-464 | the same for clearing |
| ClkgenMmcm.MainCfgRoundTrip | sdk/userspace/fpga_libs/fpga_clkgen/fpga_clkgen_mmcm.c:178-215 | the shared settings read back unchanged if and only if the multiplier and divider are 1 to 255 and the fraction is below 1024 |
| ClkgenMmcm.ClkCfgRoundTrip | sdk/userspace/fpga_libs/fpga_clkgen/fpga_clkgen_mmcm.c:217-255 | the same for a clock's own divider |
| ClkgenMmcm.SafeAt | sdk/userspace/fpga_libs/fpga_clkgen/fpga_clkgen_utils.c:255-294 | what a safe record says of any single access in it |
| ClkgenMmcm.AssertedSince | sdk/userspace/fpga_libs/fpga_clkgen/fpga_clkgen_utils.c:287-290 | while resets are asserted there is a write of all ones to SYSRST with no other write to it since |
| ClkgenMmcm.MaskCovers | sdk/userspace/fpga_libs/fpga_clkgen/fpga_clkgen_mmcm.c:271-285 | a lock value that contains the expected mask shows the lock of every group in use |
| ClkgenDriver.Clkgen.MmcmInit | sdk/userspace/fpga_libs/fpga_clkgen/fpga_clkgen_mmcm.c:48-109 | availability is read off the right bits; the flag of a group is never taken back |
| ClkgenDriver.Clkgen.WaitForLocked | sdk/userspace/fpga_libs/fpga_clkgen/fpga_clkgen_mmcm.c:152-176 | at most 100 reads; success means that the last one showed the lock |
| ClkgenDriver.Clkgen.SetSharedClock | sdk/userspace/fpga_libs/fpga_clkgen/fpga_clkgen_mmcm.c:178-193 | written only with resets asserted; other groups untouched |
| ClkgenDriver.Clkgen.SetClkDiv | sdk/userspace/fpga_libs/fpga_clkgen/fpga_clkgen_mmcm.c:217-231 | the same; a clock the group does not have is refused |
| ClkgenDriver.Clkgen.LoadCfg | sdk/userspace/fpga_libs/fpga_clkgen/fpga_clkgen_mmcm.c:257-269 | written only with resets asserted; no setting of any group changes |
| ClkgenDriver.Clkgen.SetMmcm | sdk/userspace/fpga_libs/fpga_clkgen/fpga_clkgen_utils.c:174-220 | success leaves the recipe in the registers of every clock the group has; nothing is done for a group without clocks; other groups untouched |
| ClkgenDriver.Clkgen.Reset | sdk/userspace/fpga_libs/fpga_clkgen/fpga_clkgen_utils.c:255-294 | resets are released only right after a lock read with the whole expected mask; otherwise they stay as they were, also when 0 is returned after a timeout |
| ClkgenUtils.TableFine | sdk/userspace/fpga_libs/fpga_clkgen/fpga_clkgen_utils.c:28-71 | every row fits the register fields and lies within 3.5 MHz of its label |
| ClkgenUtils.NearLabel | sdk/userspace/fpga_libs/fpga_clkgen/fpga_clkgen_utils.c:28-71 | the same for the exact real frequency the code computes |
| ClkgenUtils.RowsMonotone | sdk/userspace/fpga_libs/fpga_clkgen/fpga_clkgen_utils.c:28-71 | the exact frequencies do not fall down the table |
| ClkgenUtils.ChoiceMonotone | sdk/userspace/fpga_libs/fpga_clkgen/fpga_clkgen_utils.c:231-237 | the row for a request is unique, and its frequency does not fall as the request rises |
| ClkgenUtils.FindRow | sdk/userspace/fpga_libs/fpga_clkgen/fpga_clkgen_utils.c:231-237 | the search finds the row with the greatest label not above the request |
| ClkgenUtils.RecipesFit | sdk/userspace/fpga_libs/fpga_clkgen/fpga_clkgen_utils.c:75-109 | every predefined recipe survives the register fields |
| ClkgenUtils.ReadsBack | sdk/userspace/fpga_libs/fpga_clkgen/fpga_clkgen_utils.c:130-172 | a programmed clock reads back at exactly the frequency of its recipe |
| ClkgenUtils.SetGet | sdk/userspace/fpga_libs/fpga_clkgen/fpga_clkgen_utils.c:130-253 | for an accepted request clock 0 reads back at the exact frequency of the chosen row, at most 3.5 MHz above the request |
| ClkgenUtils.SetFreq | sdk/userspace/fpga_libs/fpga_clkgen/fpga_clkgen_utils.c:222-253 | a request below 87 is refused; success programs the chosen row |
| ClkgenUtils.GetFreq | sdk/userspace/fpga_libs/fpga_clkgen/fpga_clkgen_utils.c:130-172 | reports what the registers hold, and nothing for a group without clocks |
| ClkgenApi.ReleasedLocked | sdk/userspace/fpga_libs/fpga_clkgen/fpga_clkgen_utils.c:265-290 | a call that released the resets read, right before, a lock register with the lock of every group in use |
| ClkgenApi.CheckId | sdk/userspace/fpga_libs/fpga_clkgen/fpga_clkgen_utils.c:296-320 | success means that the three identification registers held the expected values |
| ClkgenApi.Prepare | sdk/userspace/fpga_libs/fpga_clkgen/fpga_clkgen_utils.c:376-384 | every call begins with reads only; a group once found in use stays so |
| ClkgenApi.SetRecipe | sdk/userspace/fpga_libs/fpga_clkgen/fpga_clkgen_utils.c:360-407 | in every outcome the record of the call is safe and resets it asserted are still asserted unless it released them; success programs all four groups |
| ClkgenApi.SetDynamic | sdk/userspace/fpga_libs/fpga_clkgen/fpga_clkgen_utils.c:409-456 | the same, with the rows chosen for the four requests; requests above a group's maximum are refused |
| ClkgenApi.DeassertResets | sdk/userspace/fpga_libs/fpga_clkgen/fpga_clkgen_utils.c:458-482 | safe in every outcome; no setting changes |
| ClkgenApi.ResetToggle | sdk/userspace/fpga_libs/fpga_clkgen/fpga_clkgen_utils.c:484-512 | the same, with resets asserted first |
| ClkgenApi.GetDynamic | sdk/userspace/fpga_libs/fpga_clkgen/fpga_clkgen_utils.c:322-358 | never writes; reports what the registers hold for every group in use |
| IoVec.MovesFront | sdk/userspace/utils/io.c:136-204 | what was moved is the front of what was asked for, each address once and in order; 0 means all of it |
| IoVec.StillRunning | sdk/userspace/utils/io.c:136-204 | a vectored loop has not returned if and only if no call failed and the bytes moved are fewer than asked for, or, when none are asked for, every call was interrupted |
| IoVec.ProgressEnds | sdk/userspace/utils/io.c:136-204 | it returns 0 within as many calls as there are bytes if every call moves at least one |
| IoVec.Advance | sdk/userspace/utils/io.c:156-165 | the inner loop stops inside the vector, and what the rest covers is what was covered without the bytes moved |
| IoVec.VectorLoop | sdk/userspace/utils/io.c:136-204 | on any vector, empty entries included, the loop does what the transfer of a flat buffer does |
| IoVec.BufferLoop | sdk/userspace/utils/io.c:85-133 | sread_loop and write_loop: a call that moves nothing ends them; the count is what the calls before the end moved |
| Slots.TotalPreorder | sdk/userspace/fpga_libs/fpga_pci/fpga_pci_sysfs.c:431-455 | the comparator is a total preorder, equal exactly on equal addresses, with uninitialised entries last |
| Slots.SortUnique | sdk/userspace/fpga_libs/fpga_pci/fpga_pci_sysfs.c:544-549 | any two sorted orders of the same entries are equal if entries of equal address are |
| Slots.Canonical | sdk/userspace/fpga_libs/fpga_pci/fpga_pci_sysfs.c:458-549 | with at most eight readable mailbox devices of distinct non-zero addresses the slot table does not depend on directory order |
| Slots.BrokenFails | sdk/userspace/fpga_libs/fpga_pci/fpga_pci_sysfs.c:524-525 | while fewer devices can be read than there is room for, devices that cannot be read, all with the same code, fail the scan with it wherever they are listed |
| Slots.OrderFreeIff | sdk/userspace/fpga_libs/fpga_pci/fpga_pci_sysfs.c:458-549 | for devices of distinct non-zero addresses among any other entries, the result of a scan is independent of directory order if and only if there are at most eight, or, when some cannot be read, fewer than eight that can and one code for all that cannot |
| Slots.NineDevices | sdk/userspace/fpga_libs/fpga_pci/fpga_pci_sysfs.c:530-533 | a directory with nine devices whose slot table depends on the order exists |
| Slots.PresentFirst | sdk/userspace/fpga_libs/fpga_pci/fpga_pci_sysfs.c:431-455 | present entries come before empty ones |
| Slots.GetAllSlotSpecs | sdk/userspace/fpga_libs/fpga_pci/fpga_pci_sysfs.c:596-615 | on an array of any size: the table over its first eight entries, then completed up to the first empty entry, the end, or the first failure, whose code is returned; beyond eight entries the loop goes on to what the caller left there |
| Slots.GetSlotSpec | sdk/userspace/fpga_libs/fpga_pci/fpga_pci_sysfs.c:618-648 | the entry of that number, completed, or -ENOENT if it is empty, or the first error |
| Slots.Agreement | sdk/userspace/fpga_libs/fpga_pci/fpga_pci_sysfs.c:596-648 | asking for slot i and for all slots agree on every device that is present |

## Left out

Assumptions about the devices, which the sources only imply:

- The streaming card: the credit limit it grants is 64 more than the descriptors it has taken out of its RAM; it writes one metadata entry per descriptor; a packet fits one C2H descriptor; in loopback packet k of the H2C side is packet k of the C2H side. It is idle while it is being reset.
- The mailbox device: it leaves a response alone until it was acknowledged and never writes the command window.
- The debug bridge: it clocks exactly as many bits as its length register says, in any number of polls.
- Clock registers: configuration registers read back what was written to them.

Weaker than one might want:

- SdeMgmt.SdeMgmt.PostC2h: called directly it does no credit check, so validity is promised only when the caller has the credit, as `StartRead` does; the same for PostH2c and `Write`.
- SdeMgmt.SdeMgmt.PrepareWrite: what the H2C buffers hold is promised while the C2H stream holds ring descriptors only, that is as long as no post was cut short by a failing poke; it does not wait for an earlier DMA, so contents that reach the card are claimed for the loopback transfer only.
- SdeMgmt.SdeMgmt.Reset: a reset in the middle of a run is not part of a run, because it leaves the consumed counters; `SdeRun.CreditsAfterReset` says when the credits are right afterwards.
- SdeMgmt.SdeMgmt.CheckStatus: the status word is any that the card may have written back; its bits are not tied to a cause.
- MboxCmd.CommandIds.Next: after the counter has wrapped to 0 and was seeded again an id may repeat; what is said of answers to this call ends there.
- MgmtImage.DescribeCmd: a response that answers a describe command answers any posting of it, as the retries of one call post the same id again.
- XvcEngine.ConnectionIsShift: a bit count of 2^32 - 7 or more makes the byte count wrap to 0 and the engine read past the vectors, which is not modelled.
- ClkgenUtils.SetGet: for clock 0 of a group, as only that clock is set from the table; clocks 1 and 2 get a divider of 15.

Not modelled:

- The single-buffer and user-managed buffer layouts, and the directions other than loopback, end to end.
- Slot number checks of the streaming library, closing, statistics, timing and the data pattern of the example programs.
- The status, completed and meta_write counters of the write-back areas, and the register values of the card's configuration.
- Memory mapping, huge pages, physical addresses, the PCI BAR layer and sysfs files: mapping, attaching and file access either work or fail.
- Reply-buffer capacity of the JTAG server, partial sends, its pending-error text, which nothing sets, and the sockets themselves.
- Clock periods: set_tck returns the period it is given.
- The mailbox delay between polls, and detaching from the mailbox.
- Flags of a describe command other than 0, the metrics counters, and the conversion of error codes to text.
- Double rounding in frequencies.
- 64-bit wrap-around of sizes and offsets except where SdeMem models it.
- The qsort of the C library: `Slots.SortUnique` shows that its algorithm does not matter.
- The other tools, build scripts, kernel modules, firmware and simulation code of the repository.
