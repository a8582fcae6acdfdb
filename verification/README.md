# A model of osxgdbserver's core, with proofs

osxgdbserver lets a remote debugger control a process on Darwin/PowerPC over the GDB Remote
Serial Protocol. This project models the parts of it that carry state and proves what each of
them promises to the client:

- **Breakpoints in memory.** Inserting a breakpoint overwrites the inferior's memory with a trap
  instruction. Each record keeps the bytes it displaced, and reads and writes are patched so that
  the client never sees a trap. `Shadow`, `ShadowWrite`, `ShadowRuns` and `ShadowClients` prove
  when raw memory plus the list of records behaves like plain memory, with exact conditions where
  it does not always; `StepOverCycle` does the same for stepping over a breakpoint by a second
  one; `Breakpoints` ties the linked list on the heap to that model, and `Memory` (module
  `DarwinMemory`) the word-by-word access to the inferior; `MemoryServer` goes up to packet text.
- **The packet layer.** `Framing` has getpkt and putpkt as functions on a byte stream. `Bursts`
  says what a connection delivers: bursts of any length, which no read crosses, and the bytes
  that `readchar` has read ahead. `Connection` has the loops of the source on such a connection,
  and `PacketLoop` runs packet_loop on it, from acknowledged mode through the switch to no-ack
  mode. `Session` has whole sessions on the plain stream, `ReadAhead` the exact condition under
  which the connection makes no difference to them, and `PatientClients` what a client has to do
  for that. `StopAndWait` joins a sender and a receiver by channels that damage frames.
- **The register cache.** `RegisterLayout`, `RegisterCache`, `RegisterRuns` and `RegisterServer`
  prove that a packed buffer with a valid bit, written back before each resumption, acts as one
  register file, and when it does not.
- **vCont and threads.** `VCont` has the parser that fills an array sized by an earlier pass, the
  choice of an action when the inferior is resumed, and the meaning of a packet across the two;
  `Threads` has the thread list, its enumeration, and the handlers around the parser.
- **All of it.** `Packets` has the remaining packets of handle_packet, and `EndToEnd` puts the
  pieces together: byte for byte, what a client gets over a noisy connection is what a server on
  plain memory and one register file would send. `Dispatch` has the server itself: handle_packet
  over the handlers and the packet buffer on the heap, packet_loop around it on a connection, and
  the construction of all its parts. `Branches` and `Likeness` have the lemmas on values for it.
- **In literal text.** `Numerals` says what digits, numbers and byte strings are, character by
  character, `Spelling` what frames and packets look like on the line, `Resumptions` what ptrace
  does for c, s, C, S and vCont, and `Transcript`, `RegisterTranscript` and `SessionTranscript` what
  the real server says to a packet of each kind and what becomes of memory, registers and session.

`Text` (modules `Text` and `CLibrary`) and `HexCodec` hold the hexadecimal codecs and strtol;
`Arithmetic`, `Options` and `Protocol` what the others share. `dafny verify dfyconfig.toml` checks
everything.

## What the proofs found

The code was followed wherever it and a comment or an evident intention disagree:

- Removing a breakpoint changes what the client sees exactly when, for some byte of it, no older
  record covers that byte and a newer one saved a different value there (`DeleteKeepsViewIff`). A
  write is stored wrongly exactly when a written byte lies under two records and the newer one's
  trap byte is not the byte written (`WriteExactIff`). A store by the inferior is seen exactly
  where it lies under no breakpoint (`StoreExactIff`). `ShadowLimits` has an input for each, and
  `StepRefinesIff` has them in one statement.
- `reinsert_breakpoint_by_bp` raises its error only after the temporary breakpoint has been set.
  `check_breakpoints` calls a null handler exactly when the newest breakpoint at the stop stands
  and was set by a Z0 packet, and follows a dangling pointer exactly when the breakpoint to
  reinsert is no longer in the list (`CheckDefinedIff`), which cannot be as long as no breakpoint
  is freed that another one links to (`RunKeepsLinksIff`). `ShadowLimits` has an input for each.
  Nothing in the repository calls these stepping functions at present.
- The comment at `src/server.c:260` says that no-ack mode starts after the OK has been sent; the
  flag is set before, so the server does not wait for an acknowledgment. A '-' for a bad checksum
  is still written in no-ack mode.
- A checksum digit that is not lower-case hexadecimal makes `fromhex` call `error`, which leaves
  getpkt without a '-' (`BadDigitIff`). An empty packet ends the session (`EmptyPacketEnds`).
- putpkt reads the acknowledgment straight from the socket, past the bytes that `readchar` has read
  ahead. It finds the same one as on the plain stream exactly when nothing has been read ahead, or
  only copies of the acknowledgment that is still to come (`AckInLineIff`, and `VisitsIff` for
  whole sessions). Otherwise it can take a whole request for a refusal: `SecondRequestSwallowed`
  has the input. A client that sends nothing after a frame until it has seen the reply is safe
  (`TurnByTurnServed`). A 0x03 that arrives there is sent to the inferior and also repeats the frame.
- In vCont the tests for a missing number compare with the wrong pointer and never fire: `C` without
  digits is signal 0 (`MissingSignal`, and `SignalMissed` for `vCont;C`) and `:` without digits is
  thread 0 (`MissingThread`, and `ThreadMissed` for `vCont;c:`). That makes a difference exactly to
  packets that are otherwise accepted and lack a number (`TestsMissedIff`). A default action that
  is not at the end of the packet is dropped, so a process gets another action than the leftmost one for it unless
  the two come to the same (`VContObeysIff`); `vCont;s;c:1` lets process 2 continue
  (`DefaultDropped`). `leave_stopped` is set and never looked at.
- A P packet that arrives while the cache is not valid is answered OK and lost
  (`EarlyWriteIsLost`). A G packet with a bad digit stores the bytes before it and gets no reply.
- decode_m_packet looks at four digits of the length only (`ReadRoundTripIff`, `FirstFourRead`).
- C and S cut the host's signal number down to a byte and go on without a signal where the host has
  none; vCont does neither (`SameSignalIff`, `UnknownSignal`).

## Model

| member | source | states |
|---|---|---|
| EndToEnd.SessionIsPlain | src/server.c:952-971 | for any requests, well-formed or not, sent over a connection in any bursts with junk, damaged frames and repeated replies, by a client that waits for the replies it has to acknowledge, in either mode and across the switch, and an inferior that runs in between until it ends: the server writes byte for byte what a server on plain memory and one register file would, if each packet is allowed in the state it meets |
| EndToEnd.ServeClient | src/server.c:952-971 | the loops of packet_loop, getpkt and putpkt on that connection write exactly this |
| EndToEnd.CarefulSessionIsPlain | src/server.c:952-971 | the same from untouched memory and acknowledged mode for a client that waits for every reply, with aligned breakpoints, no write under two of them, no store by the inferior under one, and no P before the cache is valid |
| EndToEnd.OnePacket | src/server.c:742-854 | one allowed packet of any letter: same reaction (a reply, none after an error, exit) and mode, the reply fits the buffer, and the real machine goes on showing the plain one |
| EndToEnd.OneReaction | src/server.c:742-824 | the same for the packet as text: C and S with a bad digit get no reply and change nothing, a rejected vCont and an unknown letter the empty reply |
| EndToEnd.ReplyFits | src/remote-utils.c:326-355 | every reply is a C string, and that of an allowed packet fits the buffer in which putpkt frames it |
| Packets.FixedReplyFits | src/server.c:149-286 | the fixed replies are texts of at most 20 bytes, but for the echo of d |
| EndToEnd.MemoryPacket | src/server.c:579-738 | the memory and breakpoint packets among these, with those that do not parse |
| EndToEnd.RegisterPacket | src/server.c:492-577 | the register packets among these, with those that do not parse |
| EndToEnd.ResumePacket | src/server.c:617-653 | the packets that resume: both machines call ptrace alike, the inferior starts from the registers of the plain machine, and both show what it did, however it stops or ends |
| Packets.OrderObeysIff | src/darwin-low.c:225-268 | a vCont packet has ptrace called with the step and signal of the leftmost action for the process if and only if no default in front of others is in the way |
| Dispatch.ServeCareful | src/server.c:973-1014 | the whole server, constructed on a stopped inferior and run on the heap to the end of the session of a careful client: it writes what a server on plain memory and one register file would |
| Dispatch.Start | src/server.c:973-1014 | the parts of a server, constructed so that all methods below can be called |
| Dispatch.Gdbserver.Serve | src/server.c:952-971 | packet_loop with getpkt, handle_packet and putpkt on the heap: for every session that SessionIsPlain is about it writes what the plain server would |
| Dispatch.Gdbserver.Exchange | src/server.c:957-970 | one turn on any stream: what is read, handled, written and left, for every packet that the source defines, an empty one, the end of the stream and a call of error |
| Dispatch.Gdbserver.HandlePacket | src/server.c:742-854 | handle_packet on the packet buffer and the heap: new state, mode, reaction and reply text are those of Session.Handle with the handlers of EndToEnd, QStartNoAckMode included, for every packet that the source defines |
| Dispatch.Gdbserver.HandleMemory | src/server.c:784-818 | its m, M, Z and z branches |
| Dispatch.Gdbserver.HandleRegisters | src/server.c:766-783 | its ?, g, G, p and P branches |
| Dispatch.Gdbserver.HandleResume | src/server.c:617-653 | its c, s, C, S and vCont branches: registers written back, ptrace called with the chosen process, step and signal, stop reply |
| Dispatch.Gdbserver.Resume | src/darwin-low.c:225-268 | the inferior runs as ptrace was told, from the registers that the client saw; both show what it did |
| Dispatch.Gdbserver.Choose | src/server.c:289-388 | what ptrace is to be called with: process, step and signal; nothing for a rejected vCont packet; memory and registers untouched |
| Dispatch.Gdbserver.HandleAside | src/server.c:742-824 | all other branches, with the packets that parse_signal_byte or the vCont parser rejects |
| Dispatch.Gdbserver.HandleQuery | src/server.c:149-256 | the reply of handle_query, from the thread list and its cursor |
| Dispatch.Gdbserver.HandleSet | src/server.c:258-286 | OK and no-ack mode for QStartNoAckMode, else the reply alone |
| Dispatch.Gdbserver.HandleSetThread | src/server.c:498-521 | OK for g, c and s, else the empty reply; memory and registers untouched |
| Dispatch.Gdbserver.SetThread | src/server.c:498-521 | the one of the three ids that is set |
| Dispatch.Gdbserver.HandleRequest | src/server.c:403-420 | vCont? is answered, every other request that resumes nothing is refused |
| Likeness.HandledSame | src/server.c:742-824 | machines that differ in the representation of memory only react alike to every packet |
| Transcript.ReadTranscript | src/server.c:579-587 | the text m, address, comma, length gets the digits of the view, and changes nothing |
| Transcript.WriteTranscript | src/server.c:589-604 | M with its data gets OK and puts each byte where it was sent for, and no other |
| Transcript.ReadAfterWrite | src/server.c:579-604 | m reads back what M has written |
| Transcript.NoCommaTranscript | src/remote-utils.c:796-838 | m and M without a comma get no reply and change nothing |
| Transcript.BadDataTranscript | src/server.c:589-604 | M with short or bad data gets no reply and stores nothing |
| Transcript.InsertTranscript | src/server.c:702-722 | Z0, at any address of 32 bits and with any kind, gets OK, and the trap is in raw memory |
| Transcript.RemoveTranscript | src/server.c:724-738 | z0 gets OK, and the saved bytes of the newest breakpoint there are back |
| Transcript.InsertThenRemove | src/server.c:702-738 | Z0 and then z0 leave records and raw memory as they were |
| Transcript.OtherPointsTranscript | src/server.c:702-738 | Z and z of other kinds get the empty reply and change nothing |
| RegisterTranscript.ReadAllTranscript | src/server.c:523-528 | g gets the digits of all registers, which stay |
| RegisterTranscript.ReadOneTranscript | src/server.c:538-552 | p gets the part of the g reply at the place of the register |
| RegisterTranscript.NegativeTranscript | src/server.c:538-552 | p with a negative number gets E01 |
| RegisterTranscript.WriteAllTranscript | src/server.c:530-536 | G with 412 bytes gets OK and replaces all registers |
| RegisterTranscript.BadWriteAllTranscript | src/regcache.c:147-161 | G with a bad digit gets no reply and stores what is before it |
| RegisterTranscript.WriteOneTranscript | src/server.c:554-577 | P gets OK and, with a valid cache, sets that register and no other |
| RegisterTranscript.BadWriteOneTranscript | src/server.c:554-577 | P with short or bad digits gets no reply and changes nothing |
| RegisterTranscript.QuestionTranscript | src/server.c:492-496 | ? gets the stop reply for the last stop |
| RegisterTranscript.ContinueTranscript | src/server.c:637-644 | c, whatever follows, has ptrace called without step and signal, and gets the stop reply |
| RegisterTranscript.StepTranscript | src/server.c:646-653 | s has it called with step |
| SessionTranscript.LeavingTranscript | src/server.c:468-490 | D gets OK and k nothing, and the server is gone |
| SessionTranscript.SessionEndsIff | src/server.c:827-854 | the server goes after D and k, after a reply while the status is W or X, and after no other packet |
| SessionTranscript.AliveTranscript | src/server.c:672-684 | T gets OK for a thread that is alive and E01 for one that is not |
| SessionTranscript.QueriesTranscript | src/server.c:149-217 | the replies to qC, qAttached, qfThreadInfo, qsThreadInfo and qSupported |
| SessionTranscript.RequestsSpelled | src/server.c:498-521 | the replies to !, H, d and R |
| SessionTranscript.SettingsSpelled | src/server.c:258-286 | the replies to Q packets |
| SessionTranscript.OtherRequestsSpelled | src/server.c:149-286 | every other q, Q and H packet gets the empty reply |
| SessionTranscript.UnknownTranscript | src/server.c:819-822 | letters without a meaning get the empty reply |
| SessionTranscript.BadSignalTranscript | src/server.c:606-635 | C and S without two digits get no reply and resume nothing |
| SessionTranscript.RejectedTranscript | src/server.c:396-400 | a rejected vCont gets the empty reply and resumes nothing |
| Resumptions.StepsSpelled | src/server.c:637-653 | what c and s have ptrace do |
| Resumptions.SignalSpelled | src/server.c:606-635 | what C and S with two digits have it do |
| Resumptions.AloneSpelled | src/server.c:289-388 | what a vCont packet with one action for all threads has it do |
| Resumptions.ActionsSpelled | src/server.c:314-350 | which letters step, which deliver a signal, and which one |
| Resumptions.WishesSpelled | src/server.c:305-376 | how the items of a vCont packet are written |
| Resumptions.SameSteps | src/server.c:637-653 | c and s do what vCont;c and vCont;s do: run on, and take one step |
| Resumptions.SameSignalIff | src/server.c:606-635 | C and S do what vCont does with the signal if and only if the number that the host has for it is a byte |
| Resumptions.UnknownSignal | src/server.c:606-615 | for a signal that the host does not have C and S go on without one, and vCont is refused |
| Resumptions.VContAnswer | src/server.c:412-417 | the reply to vCont? names the letters that vCont takes, and no others |
| Shadow.SeenIsOldest | src/mem-break.c:231-269 | what the overlay of check_mem_read leaves at an address is the byte saved by the oldest record covering it, else the raw byte |
| Shadow.ReadBackIsLogical | src/target.c:64-68 | a raw read of any range patched by check_mem_read is a read of that view |
| Shadow.SetKeepsView | src/mem-break.c:51-71 | setting a breakpoint, also on top of others, changes no byte of the view |
| Shadow.UninsertKeepsView | src/mem-break.c:168-180 | taking a trap out of raw memory is invisible, whatever overlaps |
| Shadow.ReinsertKeepsView | src/mem-break.c:182-198 | putting it back is invisible |
| Shadow.StepOverKeepsView | src/mem-break.c:145-166 | setting up a step over a breakpoint is invisible, also when it ends in an error |
| Shadow.DeleteByte | src/mem-break.c:73-97 | the exact byte seen at every address after a deletion |
| Shadow.DeleteKeepsViewIff | src/mem-break.c:73-97 | deleting is invisible if and only if the victim exposes no byte that a newer record saved differently |
| ShadowWrite.WriteByte | src/mem-break.c:271-313 | the exact byte seen at every address after a write |
| ShadowWrite.WriteExactIff | src/target.c:70-91 | a write changes the view by exactly the buffer if and only if each byte reaches its oldest record unchanged |
| ShadowWrite.SingleIsWritable | src/mem-break.c:271-313 | bytes under at most one record are always written exactly |
| ShadowWrite.WriteKeepsInPlace | src/mem-break.c:307-311 | such a write leaves every inserted trap and every lifted record's bytes in raw memory, and raw memory outside the range alone |
| ShadowRuns.StepRefinesIff | src/mem-break.c:51-313 | each event acts on the view as on plain memory if and only if its guard holds; stops at which check_breakpoints is undefined are the ones that CheckDefinedIff names |
| ShadowRuns.StoreExactIff | src/mem-break.c:231-269 | a store by the inferior is seen as on plain memory if and only if each byte lies under no breakpoint or is what was shown there |
| ShadowRuns.RunRefines | src/mem-break.c:51-313 | every guarded run of reads, writes, insertions, removals, step-overs and stores by the inferior is answered as by plain memory and leaves that memory in view |
| ShadowRuns.RunRestores | src/mem-break.c:73-122 | once no breakpoint is left raw memory is the plain memory |
| ShadowRuns.CheckKeepsViewIff | src/mem-break.c:124-217 | a stop at a temporary breakpoint is invisible if and only if freeing it is |
| ShadowClients.DisjointRunRefines | src/mem-break.c:51-313 | with pairwise disjoint breakpoints reads are answered as by plain memory, and raw memory ends equal to it but for the standing traps |
| ShadowClients.DisjointRunKeepsInPlace | src/mem-break.c:51-313 | on such runs traps and lifted bytes are in place throughout |
| ShadowClients.AlignedRunRefines | src/mem-break.c:51-122 | aligned breakpoints may be set and removed in any order and any number of times: reads as by plain memory, and a trap stays until its last removal |
| ShadowClients.StepKeepsStacked | src/mem-break.c:51-122 | the invariant of such runs: a breakpoint on top of another saved that one's trap |
| ShadowLimits.OverlapRemovedOldestFirst | src/mem-break.c:73-97 | an input for which a removal shows a trap byte to the client |
| ShadowLimits.WriteUnderTwo | src/mem-break.c:307-311 | an input for which a written byte reads back as a trap byte |
| ShadowLimits.StoreUnderBreakpoint | src/mem-break.c:231-269 | an input for which a store by the inferior is not seen |
| ShadowLimits.StopAtClientsBreakpoint | src/mem-break.c:200-217 | an input for which check_breakpoints calls a null handler: Z0, then a stop there |
| ShadowLimits.OriginalRemovedMeanwhile | src/mem-break.c:124-143 | an input for which it follows a dangling link: a step over a breakpoint, z0 for that one, then the stop |
| Shadow.CheckDefinedIff | src/mem-break.c:200-217 | check_breakpoints is defined if and only if a breakpoint that stands at the stop is a temporary one whose original is in the list; which of the two ways it fails; when the handler does its work |
| StepOverCycle.CycleRestores | src/mem-break.c:124-166 | stepping over a standing breakpoint and stopping at the temporary one restores records and raw memory, wherever the temporary one goes |
| StepOverCycle.CycleWithTraffic | src/mem-break.c:124-217 | reads, writes and stores in between survive as seen memory, and the records come back but for saved bytes |
| StepOverCycle.StepKeepsLinksIff | src/mem-break.c:40-43 | links to a breakpoint awaiting reinsertion stay good through every event, except exactly when a record that another links to is freed |
| StepOverCycle.DeleteKeepsLinksIff | src/mem-break.c:73-97 | the case of a deletion |
| StepOverCycle.RunKeepsLinksIff | src/mem-break.c:51-217 | links are good in every state of a run if and only if it frees no record that another links to; then no stop meets a dangling one |
| StepOverCycle.LinkedIsAnswerable | src/mem-break.c:200-217 | with good links a stop is undefined exactly at a standing breakpoint of the client |
| Breakpoints.BreakpointTable.FindBreakpointAt | src/mem-break.c:99-113 | the newest node at the address, or null |
| Breakpoints.BreakpointTable.SetBreakpointAt | src/mem-break.c:51-71 | the whole new state: trap planted, node with the raw bytes at the head |
| Breakpoints.BreakpointTable.DeleteBreakpoint | src/mem-break.c:73-97 | the whole new state: saved bytes stored, node unlinked wherever it was |
| Breakpoints.BreakpointTable.Unlink | src/mem-break.c:77-95 | head and links skip the node and no other |
| Breakpoints.BreakpointTable.DeleteBreakpointAt | src/mem-break.c:115-122 | deletes the newest at the address, or nothing |
| Breakpoints.BreakpointTable.PatchRead | src/mem-break.c:238-267 | the clipped copy overlays exactly the shared bytes |
| Breakpoints.BreakpointTable.CheckMemRead | src/mem-break.c:231-269 | the loop computes the overlay of all records, newest first, and touches no other cell |
| Breakpoints.BreakpointTable.ReadInferiorMemory | src/target.c:64-68 | the buffer gets the bytes of the view |
| Breakpoints.BreakpointTable.PatchWrite | src/mem-break.c:278-311 | one record takes the client's bytes; the buffer gets its trap unless it is lifted |
| Breakpoints.BreakpointTable.CheckMemWrite | src/mem-break.c:271-313 | all records and the buffer after the loop |
| Breakpoints.BreakpointTable.WriteInferiorMemory | src/target.c:70-91 | the whole new state of memory and records |
| Breakpoints.BreakpointTable.UninsertBreakpoint | src/mem-break.c:168-180 | new state, and the error when there is nothing at the address |
| Breakpoints.BreakpointTable.ReinsertBreakpoint | src/mem-break.c:182-198 | new state, and both errors |
| Breakpoints.BreakpointTable.BreakpointInsertedHere | src/mem-break.c:225-229 | true if and only if the newest record there stands |
| Breakpoints.BreakpointTable.ReinsertBreakpointByBp | src/mem-break.c:145-166 | new state with the link; on the error the temporary breakpoint stays |
| Breakpoints.BreakpointTable.CheckBreakpoints | src/mem-break.c:200-217 | new state and result |
| Breakpoints.BreakpointTable.ReinsertBreakpointHandler | src/mem-break.c:124-143 | the original trap is back and the temporary breakpoint is gone, or there was no link; and the error when nothing is at the stop address |
| DarwinMemory.Target.ReadMemory | src/darwin-low.c:337-375 | each cell is the inferior's byte or, for a word that cannot be read, zero; nothing past the length |
| DarwinMemory.Target.WriteMemory | src/darwin-low.c:378-434 | success changes exactly the range for every length and alignment; an error means that the words before the refused one were stored |
| DarwinMemory.Target.StoreWord | src/darwin-low.c:408-428 | a tail shorter than a word is merged with what was there |
| MemoryServer.Server.HandleReadMem | src/server.c:579-587 | the reply is the view in hexadecimal; a packet that does not parse leaves the buffer alone |
| MemoryServer.Server.HandleWriteMem | src/server.c:589-604 | the write that the text asks for and OK, or no change at all |
| MemoryServer.Server.HandleInsert | src/server.c:702-722 | the insertion that the text asks for and OK, or the empty reply |
| MemoryServer.Server.HandleRemove | src/server.c:724-738 | the removal that the text asks for and OK, or the empty reply |
| MemoryServer.Server.HandlePacket | src/server.c:784-818 | the four together: new state, and reply or none |
| MemoryServer.PacketRoundTrip | src/server.c:579-738 | every printed m, M, Z0 and z0 packet is understood as it was meant |
| Spelling.InsertSpelled | src/server.c:702-722 | Z0, an address of 32 bits, a comma and any kind is an insertion there |
| Spelling.RemoveSpelled | src/server.c:724-738 | the same with z0 is a removal |
| Spelling.OtherPointsSpelled | src/server.c:702-738 | other kinds of Z and z are refused |
| MemoryServer.ServeRefines | src/server.c:579-738 | a guarded session of packets within the address space and the buffers is answered text for text as on plain memory |
| MemoryServer.AlignedSession | src/server.c:579-738 | the same with conditions on addresses and lengths only, and raw memory at the end |
| Text.HexRoundTrip | src/remote-utils.c:654-678 | decoding inverts encoding for all byte strings, whatever follows |
| Text.HexRoundTripBack | src/remote-utils.c:654-678 | encoding inverts decoding of every text of digits |
| Numerals.ToHexSpelled | src/remote-utils.c:292-301 | the digits are 0123456789abcdef |
| Numerals.FromHexSpelled | src/remote-utils.c:239-254 | fromhex gives each of these characters its place among them, and knows no others |
| Numerals.FromHexIncreases | src/remote-utils.c:239-254 | later characters are larger digits |
| Numerals.AnyDigitSpelled | src/server.c:359-361 | strtol reads letters of either case alike |
| Numerals.HexEncodeByte | src/remote-utils.c:654-667 | a byte is two digits, the high one first |
| Numerals.HexEncodeSlice | src/remote-utils.c:654-667 | a part of the bytes is the part of the digits at twice its place |
| Numerals.HexValueSpelled | src/remote-utils.c:274-288 | a numeral is read from the left, to base 16 |
| Numerals.HexNumberSpelled | src/server.c:149-217 | %x prints the one numeral of the number that has no zero in front |
| Numerals.StrtolSpelled | src/server.c:672-684 | strtol with a sign, and where it saturates |
| Numerals.StrtoulSpelled | src/server.c:702-738 | strtoul with a sign, and where it saturates |
| Numerals.CasesSpelled | src/server.c:359-361 | space, a plus sign and 0x in front of digits in both cases |
| HexCodec.ConvertIntToAscii | src/remote-utils.c:654-667 | two digits a byte and a NUL after them |
| HexCodec.ConvertAsciiToInt | src/remote-utils.c:669-678 | stores the pairs before the first bad one and nothing else |
| HexCodec.DecodeReadPacket | src/remote-utils.c:796-817 | address up to the comma with 64-bit wrap-around, at most four digits of the length, error on any other character |
| HexCodec.DecodeWritePacket | src/remote-utils.c:819-838 | address, 32-bit length, and where the data starts |
| HexCodec.ReadRoundTripIff | src/remote-utils.c:796-817 | a printed m packet is read back if and only if the length is below 0x10000 |
| HexCodec.FirstFourRead | src/remote-utils.c:807-816 | of a longer length the first four digits are read |
| HexCodec.SignedIs | src/remote-utils.c:796-838 | an address is the signed number of 64 bits with the bits of the numeral |
| HexCodec.WriteRoundTrip | src/remote-utils.c:819-838 | a printed M packet is read back for every address below 2^63 and all data |
| Framing.AwaitAckCounts | src/remote-utils.c:357-425 | the frame is written once and once more per byte that is not '+'; one SIGINT per 0x03; nothing after the '+' is read |
| Framing.ChecksumAddsUp | src/remote-utils.c:329-350 | the checksum of nothing is zero, that of a byte the byte, and that of two parts the sum |
| Spelling.FrameSpelled | src/remote-utils.c:329-355 | a dollar sign, the packet, a hash sign and the two digits of the checksum |
| Spelling.OkFramed | src/remote-utils.c:329-355 | the frame of OK is $OK#9a |
| Spelling.ReceivedOnTheLine | src/remote-utils.c:536-636 | $g#67 is received and gets a plus sign, $g#68 a minus sign |
| Spelling.AcknowledgedOnTheLine | src/remote-utils.c:381-425 | what plus, minus and 0x03 do to a frame that was sent |
| Spelling.MaskSpelled | src/remote-utils.c:501-534 | readchar drops the top bit and keeps the others |
| Framing.AnyFrameReceived | src/remote-utils.c:544-636 | what getpkt makes of junk and one frame with any two characters for its checksum |
| Framing.BadDigitIff | src/remote-utils.c:592-605 | getpkt calls error on the first frame, without a '-', if and only if one of the two is no lower-case digit |
| Framing.FrameReceived | src/remote-utils.c:544-636 | what getpkt makes of junk and one frame, damaged or not |
| Framing.CorruptionDetected | src/remote-utils.c:571-605 | every change of a single body byte changes the checksum |
| Framing.SingleByteDamage | src/remote-utils.c:595-604 | frames with one body byte changed are damaged frames |
| Framing.Recovery | src/remote-utils.c:536-636 | after k frames damaged so that the checksum tells, each behind junk, the good one is received: k times '-', one '+' unless in no-ack mode, and not a byte more consumed |
| Connection.Remote.ReadChar | src/remote-utils.c:501-534 | the next byte of the stream, masked, however reads split it, and what has then been read ahead |
| Connection.Remote.GetPacket | src/remote-utils.c:536-636 | result, output and remaining stream are those of the whole stream at once; terminates on every finite stream |
| Connection.Remote.ReadFrame | src/remote-utils.c:546-605 | one turn of the loop, up to the checksum |
| Connection.Remote.PutPacket | src/remote-utils.c:326-430 | the frame built by the loop, the number of writes and of SIGINTs, and what was read past the bytes read ahead, which stay |
| Connection.Remote.WriteUntilAcked | src/remote-utils.c:357-425 | the retransmission loop |
| StopAndWait.DriveIsGetPkt | src/remote-utils.c:544-636 | getpkt as an automaton fed byte by byte is getpkt on the stream |
| StopAndWait.NextKeepsInv | src/remote-utils.c:357-425 | the invariant of sender, channels and receiver |
| StopAndWait.ExactlyOnceInOrder | src/remote-utils.c:357-425 | in every run what has been delivered is a prefix of the payloads, and at most one acknowledgment is outstanding |
| StopAndWait.SenderIsPutPkt | src/remote-utils.c:357-425 | in every run the frames written and the payloads counted as sent are those of putpkt, called again and again, on the bytes read |
| StopAndWait.NoDeadlock | src/remote-utils.c:357-425 | while something is left to send some step is possible |
| StopAndWait.IntactStepsEnd | src/remote-utils.c:357-425 | without further damage every step comes nearer to the end |
| Session.SessionServed | src/server.c:952-971 | on the plain stream each request is handled once, in order, and answered unless its handler calls error, before, at and after the switch |
| Session.SwitchRequest | src/server.c:262-268 | QStartNoAckMode is acknowledged and its OK sent once without waiting |
| Spelling.SwitchOnTheLine | src/server.c:262-268 | $QStartNoAckMode#b0 gets +$OK#9a, and acknowledgments are off |
| Session.NoAckServed | src/remote-utils.c:607-632 | afterwards each packet gets its reply and no '+' is written |
| Session.NoAckSwitch | src/server.c:262-268 | the client's stray '+' for the OK is dropped and the session goes on |
| Session.EmptyPacketEnds | src/server.c:957 | an empty packet is acknowledged and ends the session, whatever follows |
| PacketLoop.Serve | src/server.c:952-971 | the loop on any connection, in either mode and across the switch: exactly what is written, which is what it is on the plain stream if what has been read ahead is in line at each acknowledgment |
| PacketLoop.React | src/server.c:959-965 | a packet handled and its reply sent, with the switch |
| PacketLoop.Turn | src/server.c:957-970 | one turn: what is written plus what is still to be written stays the same |
| ReadAhead.AckInLineIff | src/remote-utils.c:381-425 | putpkt finds the '+' that it finds on the plain stream and leaves the same bytes if and only if nothing is read ahead, or copies of that very acknowledgment |
| ReadAhead.VisitsIff | src/server.c:952-971 | the same packets are handled, each reply is written as often and the same is left to read as on the plain stream, if and only if that holds at each acknowledgment of the session |
| ReadAhead.InStepIsLoop | src/server.c:952-971 | and then the same bytes are written |
| PatientClients.PatientSessionServed | src/server.c:952-971 | a session in which each request whose reply is acknowledged ends with a burst is served as on the plain stream, acknowledgments and the switch included |
| PatientClients.TurnByTurnServed | src/server.c:952-971 | in particular that of a client that sends nothing after a frame until it has seen the reply |
| PatientClients.SecondRequestSwallowed | src/remote-utils.c:381-425 | an input, for any two requests, on which a client that does not wait gets its first reply once per byte of the second request, which is never handled |
| RegisterLayout.SetRegisterCache | src/regcache.c:123-138 | each offset is the sum of the sizes before it |
| RegisterLayout.Tiling | src/regcache.c:123-138 | every byte of the buffer belongs to exactly one register |
| RegisterLayout.CollectSupplied | src/regcache.c:203-223 | supplying a register changes what is collected for it and for no other |
| RegisterLayout.CollectDetermines | src/regcache.c:203-223 | the registers are all there is in the buffer |
| RegisterCache.FindRegno | src/regcache.c:178-191 | the register of that name |
| RegisterCache.NamesDiffer | src/reg-ppc.c:22-99 | no two registers of the table share a name |
| RegisterCache.Thread.SupplyRegister | src/regcache.c:210-213 | the buffer after the copy |
| RegisterCache.Thread.SupplyByName | src/regcache.c:215-218 | the named register has the value, all others are as before |
| RegisterCache.Thread.FetchRegisters | src/darwin-ppc-low.c:46-103 | the buffer shows every hardware register; nothing old is left |
| RegisterCache.Thread.GetRegcache | src/regcache.c:45-64 | fetching makes the cache valid and changes no register that the client sees |
| RegisterCache.Thread.CollectRegister | src/regcache.c:220-223 | the register's value as the client sees it |
| RegisterCache.Thread.StoreGeneral | src/darwin-ppc-low.c:112-146 | the integer registers reach the hardware, other fields stay |
| RegisterCache.Thread.StoreFloat | src/darwin-ppc-low.c:148-175 | the same for the floating-point registers |
| RegisterCache.Thread.StoreRegisters | src/darwin-ppc-low.c:106-176 | the hardware shows exactly the buffer; fields outside it are kept |
| RegisterCache.Thread.RegcacheInvalidateOne | src/regcache.c:66-83 | the cache is not valid and the hardware holds what the client saw |
| RegisterCache.RegcacheInvalidate | src/regcache.c:85-88 | the same for every thread, with the fields outside the cache kept |
| RegisterCache.FlatIsUnique | src/darwin-ppc-low.c:65-101 | one buffer shows a given hardware state |
| RegisterRuns.StepRefinesIff | src/server.c:523-577 | each command acts as on one register file, P if and only if the cache is valid or the value was there already |
| RegisterRuns.PrefixWritten | src/regcache.c:147-161 | a short G packet changes the registers it covers and none beyond |
| RegisterRuns.ValidRunRefines | src/remote-utils.c:752-759 | a valid cache is valid at every packet boundary, so all commands, P included, act as on one register file, with which the inferior is resumed |
| RegisterRuns.SessionRefines | src/server.c:492-577 | the same for a session that starts with ?, g, G or p |
| RegisterRuns.EarlyWriteIsLost | src/regcache.c:210-213 | a P packet before the cache is valid makes no difference to anything that follows |
| RegisterServer.Server.HandleReadAll | src/server.c:523-528 | new state, and all registers in hexadecimal |
| RegisterServer.Server.RegistersFromString | src/regcache.c:147-161 | excess and an odd digit are dropped; a bad digit ends it with the bytes before it stored |
| RegisterServer.Server.HandleWriteAll | src/server.c:530-536 | what the text asks for, and OK or no reply |
| RegisterServer.Server.HandleReadOne | src/server.c:538-552 | the register in hexadecimal, or E01 |
| RegisterServer.Server.HandleWriteOne | src/server.c:554-577 | supplied and OK, or no change with E01 or no reply |
| RegisterServer.Server.PrepareResumeReply | src/remote-utils.c:737-794 | the reply text; a stop with status T makes the cache valid and the thread general |
| Spelling.StopReplySpelled | src/remote-utils.c:737-794 | the status, the signal in two digits, and for T the parts of the g reply for r1 and pc behind 01: and 40:, and the thread |
| Spelling.ThreadReadsBack | src/remote-utils.c:767-788 | the thread field of a stop reply reads back to the id |
| Spelling.RegisterSpelled | src/regcache.c:220-223 | where the digits of each register are in the g reply |
| Spelling.TableSpelled | src/reg-ppc.c:22-97 | the names, widths and hardware fields of the 71 registers, in order |
| RegisterServer.Server.PutRegister | src/remote-utils.c:680-698 | an expedited register at the cursor |
| RegisterServer.Server.HandleQuestion | src/server.c:492-496 | new state and reply of the ? packet |
| RegisterServer.Server.HandlePacket | src/server.c:766-783 | the five together: new state, and reply or none |
| RegisterServer.Server.WriteBack | src/regcache.c:66-88 | the hardware has the registers that the client saw, and the cache is not valid |
| RegisterServer.Server.WaitAndReply | src/server.c:617-653 | new state and reply once the inferior has stopped |
| RegisterServer.PacketRoundTrip | src/server.c:523-577 | every printed register packet is understood as it was meant |
| RegisterServer.SaveAndRestore | src/regcache.c:140-161 | sending back what g replied restores every register |
| RegisterServer.SessionOfPackets | src/server.c:492-653 | a session of packets is answered text for text as on one register file |
| VCont.CountActions | src/server.c:295-302 | the first pass counts the semicolons |
| VCont.ParseActions | src/server.c:295-376 | terminates on every text, never writes outside the array, and computes the slots |
| VCont.ParseRound | src/server.c:312-374 | one round, with the slot index kept below the count of semicolons behind the cursor |
| VCont.ParseLetter | src/server.c:314-350 | letter and signal |
| VCont.SelectAction | src/darwin-low.c:236-255 | the scan stops at the terminator and finds the first slot for the process |
| VCont.ParseTerminates | src/server.c:376 | every accepted packet gives a terminated list |
| VCont.ParseOfPrinted | src/server.c:312-376 | what the parser makes of every list of items, with or without threads and numbers, in any order |
| VCont.VContObeysIff | src/server.c:305-376 | for every such packet the action each process gets; it is the leftmost one for the process if and only if that is no default before the end, or what follows the default comes to the same |
| VCont.VContMeaning | src/server.c:305-376 | in particular when a default, if there is one, comes last: the first action that names the process or all, else the default, else continue without a signal |
| VCont.DefaultDropped | src/server.c:353-358 | an input on which the leftmost action is not the one performed |
| VCont.TestsMissedIff | src/server.c:331-373 | on every text the tests for a missing number make no difference if and only if the packet is rejected anyway or no number is missing |
| VCont.MissingSignal | src/server.c:331-346 | a C or S without a number is signal 0, rejected only where the host has none |
| VCont.MissingThread | src/server.c:359-373 | a ':' without a number is thread 0, rejected only where neither ';' nor the end follows |
| VCont.SignalMissed | src/server.c:331-346 | the input vCont;C, accepted with signal 0 |
| VCont.ThreadMissed | src/server.c:359-373 | the input vCont;c:, accepted for thread 0 |
| Threads.InferiorList.Add | src/inferiors.c:41-53 | head, tail and links are those of the list with the entry at the end |
| Threads.InferiorList.Remove | src/inferiors.c:77-108 | the list without the entry; an absent entry changes nothing |
| Threads.InferiorList.FindInferiorId | src/inferiors.c:167-181 | the first entry with the id, or null |
| Threads.ThreadQuery.First | src/server.c:194-201 | the reply for the first thread, and the cursor |
| Threads.ThreadQuery.Subsequent | src/server.c:203-217 | the reply for the next one, and l at the end for good |
| Threads.ThreadQuery.Enumerate | src/server.c:194-217 | every thread once, in order, then only the end mark |
| Threads.RepliesDetermineIds | src/server.c:194-217 | the replies determine the list of ids |
| Threads.Control.SetDesiredInferior | src/target.c:28-62 | which thread becomes the current one |
| Threads.DesiredIsAsked | src/target.c:28-62 | the thread that was asked for is picked if it is there, else the first one |
| Threads.Control.HandleVCont | src/server.c:289-388 | up to ptrace: a rejected packet resumes nothing and keeps cont_thread; an accepted one sets it and resumes the current process as the slots say |
| Threads.NamedThreadResumed | src/server.c:376-388 | a packet with one action for one existing thread resumes that thread with that action, whatever the general and step threads are |
| Threads.Control.MyResume | src/server.c:422-443 | through darwin_resume the current process gets the step and signal asked for |

## Left out

- EndToEnd.SessionIsPlain: one thread, the only one that the Darwin target creates; what the inferior does is an arbitrary function of the run, of what ptrace was called with and of the registers, not of memory. The exact guards of StepRefinesIff and of RegisterRuns.StepRefinesIff stand for what the code does not do as on plain memory.
- EndToEnd.OnePacket: excludes what the source leaves undefined or to its buffers: register numbers of 71 and more, Z and z packets of fewer than three characters, addresses and lengths past 2^32, and replies, bodies and echoes that do not fit the packet buffer.
- PatientClients.PatientSessionServed: is about what is written; what is sent to the inferior for a 0x03 is in the contract of PutPacket only.
- ReadAhead.VisitsIff: compares what becomes of each packet and not the output alone, since repeated frames can read the same by accident.
- Framing.FrameReceived: the body has any length, as in Connection.Remote.GetPacket; that it fits the packet buffer is asked for in SessionIsPlain (Session.Roomy).
- StopAndWait.ExactlyOnceInOrder: frames are damaged in their bodies and so that the checksum changes; getpkt cannot notice other damage, by FrameReceived.
- ShadowClients.AlignedRunRefines: leaves step-overs out, and stores by the inferior under a breakpoint; runs with step-overs are those of DisjointRunRefines and RunRefines.
- Breakpoints.BreakpointTable.ReadInferiorMemory: assumes that no access fails (as do all methods of BreakpointTable), because set_breakpoint_at and delete_breakpoint ignore the result; failing accesses are in ReadMemory and WriteMemory.
- Breakpoints.BreakpointTable.CheckBreakpoints: excludes a breakpoint without a handler and a link to a freed one, for which the source is undefined.
- Breakpoints.BreakpointTable.ReinsertBreakpointHandler: excludes a link to a freed breakpoint.
- RegisterCache.Thread.FetchRegisters: assumes that the Mach calls succeed.
- RegisterServer.Server.HandleReadOne: excludes register numbers of 71 and more (as does HandleWriteOne), for which the source reads past its table.
- MemoryServer.Server.HandleReadMem: excludes lengths above 999, whose digits would not fit the packet buffer.
- MemoryServer.Server.HandleInsert: excludes a packet of fewer than three characters (as does HandleRemove), where the source reads old bytes of its buffer.
- Threads.ThreadQuery.First: excludes an empty thread list, which the source dereferences.
- Threads.Control.HandleVCont: leaves the write-back of the registers and the stop reply to RegisterServer.Server.WriteBack and WaitAndReply; Dispatch.Gdbserver.HandleResume has them together.
- Dispatch.Gdbserver.HandlePacket: excludes what the source leaves undefined, as EndToEnd.OnePacket does; the session ends after QStartNoAckMode, too, when the inferior is already gone, which Session.Handle does not have and SessionIsPlain excludes. qfThreadInfo and qsThreadInfo on one thread; lists of any length are in Threads.ThreadQuery.
- Connection.Remote.ReadChar: a read error is the end of the stream.
- Addresses are unbounded integers, bounded where packets meet them: sums of address and length do not wrap around, and the sign that CORE_ADDR has in the source matters only in decode_m_packet and decode_M_packet, where it is modelled.
- Signal numbers: the tables of src/signals.c are parameters.
- Allocation failure, free, and the reuse of a freed node's address: a node's identity stands for its address.
- vm_protect: the protection that it leaves behind.
- Restarting and the extended protocol: nothing in the repository sets extended_protocol, so R gets the empty reply and k ends the server. Attach and launch, run_to_entry_point.
- qPart, which the Darwin target does not have; qRcmd is not supported, so there is no code for the conditional breakpoints of the documentation.
- Sockets, the serial line, SIGIO and the interrupt that arrives outside putpkt, logging.
