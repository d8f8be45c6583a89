# Verification of the SIDP debug server

A Dafny model of the parts of the SIDP server that are hard to get right, and proofs of what they promise.
`dafny verify dfyconfig.toml` checks all of it.

**The debug session** (`Machine`, `Registers`, `Target`, `ShadowTable`, `Protocol`, `Session`). The session
patches BKPT halfwords into target RAM and keeps what they replace in a shadow table. The central notion is the
*program image*: the memory the target would hold if nothing had ever been patched. `Machine.Tracks` says that
memory and image differ only under installed entries, and that installed entries remember the image; since table
and memory determine the image (`Machine.ImageUnique`), keeping this relation is keeping the program. The history of
backend calls records the image after every call that may change it, and a call is only accepted if it changes the
image as such a call may: `TargetBackend.ImageAccounted` says of every byte that differs between two points of a
history who changed it, and `DebugSession.ImageOverRun` says it of every run of inputs. No patch, restore,
step-over, rollback or compaction can touch the image.

The backend (`TargetBackend.Target`) is nondeterministic within the contract of `include/sidp_backend.hpp`: every
call may fail, a failed memory write is torn byte by byte, a failed register write may have moved the program
counter, a failed resume may have happened. It records the history of calls, and a call is only accepted if the
history permits it: patch and restore writes need a confirmed halt, a release needs the whole configuration in
force and the right code under the program counter, a successful detach needs an empty table and memory equal to
the image. `DebugSession.Session` is the session itself, method by method; its invariant `Valid` holds between
handlers, and `Serve` runs it over any sequence of messages, ticks and disconnects, and shows for each turn its
calls, its frames in order, and the image. What each request promises is a predicate over the states before and after
it (`RunDone`, `DetachDone` and so on); `Served` joins them, and `Step` carries them to every turn. They say what an OK
means and that anything else has a reason: a check that fails, or a backend call that did (`TargetBackend.Faulty`).

**The packet queues** (`Queue`). Each mutex-guarded block is one atomic step, so an interleaving of all tasks is a
sequence of steps; the invariant is proved for every state of every sequence, first in, first out is stated over
events and results (`PacketQueue.FirstInFirstOut`), and the class holds the fields and does the steps.
`ReceivePath` puts the two decoders in front of the queue, for every interleaving.

**The codecs**: CRC-32 (section 8.1.1.6.2 of ITU-T V.42) in `Crc`, SLIP (RFC 1055) in `Slip`, WebSocket reassembly
(section 5.4 of RFC 6455) in `WebSocket`, and the protobuf codec in `Varint` ("Base 128 Varints", "Signed
Integers"), `FieldIter`, `Message`, `MessageLaws`, `MessageRepeats`, `MessageInput` and `MessageOutput`. In each, functions say what
the bytes mean, lemmas relate the two directions, and the imperative code is proved to compute the functions.

## Assumptions

- A running program writes no byte of an instruction the shadow table remembers (sidp_session.cpp:1590-1738 has no
  way to notice it). Everything else a program does to its memory is allowed.
- A halt that answers OK is a halt, and a poll that answers OK on a halted target reports it
  (include/sidp_backend.hpp:132-140). The register list of a stopped core shows its physical program counter.
- The size announced by `read_regs` is not trusted; the session checks it, and so does the model.
- `epoch` and `link_serial` of the queues are unbounded, and the rings hold whole packets with a nondeterministic
  answer to whether there is room.
- Debug fault status is modelled as its named bits, vector-catch masks as sets, and fixed request layouts as
  records. A payload whose size does not fit its opcode is `Malformed`; for RUN, `sized` says whether the two tables
  fill the payload, because that check comes after others.

## What the proofs turned up

- **A misattributed breakpoint.** A core halted by a BKPT may report the address of the patch or the one behind it.
  `sw_bp_find_by_halt_pc` tries the address two below first, so a report of the patch's own address is put down to a
  neighbour exactly when another installed patch sits two bytes below (`ShadowTable.HitFound`, both directions;
  `ShadowTable.MistakenExample` is such a table). The stop then carries the neighbour's id and address, and the
  program counter the peer reads, the step-over and a DETACH follow it: `EnterHalted`, the STOPPED event
  (`DebugSession.HitTold`) and `OpDetach` say so.
- **Stepping over a breakpoint that is gone.** A RUN that drops the breakpoint the core stands on and sets another
  one inside the same 32-bit instruction steps through a patched second halfword (`ShadowTable.DroppedExample`).
  `OpRun` gives the exact condition for its own request: the whole original instruction is executed exactly if it is
  a halfword or no breakpoint of the request starts two bytes behind (`DebugSession.StepsWhole`). As long as the
  breakpoint is still in the list with the size of its instruction, that always holds, since the list is refused
  otherwise (`ShadowTable.StepsOwnInstruction`).
- **The stop generation wrap.** `enter_halted` declares the target lost when the generation wraps
  (sidp_session.cpp:1321-1324), but `op_halt`, `prepare_reset` and `op_reset_run` carry on (1122, 1137, 1220). At
  the wrap, and only there, HALT, RESET_HALT and RESET_RUN send TARGET_LOST before their response, and RESET_RUN
  leaves LOST for RUNNING. `OpHalt`, `OpResetHalt` and `OpResetRun` give the frames; for an answer of
  OK the condition is exact: the generations the request opens before it answers, none, one or two by request and
  state, exceed the largest. A RESET_HALT or RESET_RUN that is answered with an error may have failed before or after
  the halt that wraps, so there the order is stated by whether the generation did wrap during the call.
- **Documentation and code differ.** Section 10.4 of docs/sidp-protocol.md describes a failed installation as a
  return to the state before RUN, and a WRITE_MEMORY over a breakpoint as atomic. The code rolls back to an empty
  configuration, so a failed RUN on a target that is not lost leaves the earlier configuration in place exactly if it
  made no backend call or there was none (`OpRun`). A torn write may leave the last two bytes of a patched 4-byte
  instruction different from the shadow while the entry still covers them (`ShadowTable.TornExample`). Which writes
  are safe from that is a condition on the request: exactly those that repeat what is behind each patched halfword
  (`ShadowTable.FailsSafely`); and exactly those that change no byte of the program but under patched halfwords keep
  the original state whenever they fail (`ShadowTable.FailsWithoutTrace`). The model follows the code.
- **Dead branches.** The null results of `begin_frame` cannot happen: every frame the session builds fits 8192
  bytes, which each call of `FinishFrame` proves. In a valid live session HALT never meets an unreported stop.
- **A lenient varint reader.** The 32-bit reader accepts some varints beyond 32 bits and drops the excess. It reads
  without loss exactly those with nothing above the low word (`Varint.ReadsExactly`), it gives the right word for
  exactly those that extend the sign of a negative 32-bit value (`Varint.ReadsSignExtension`), and it loses the high
  part of all others without an error (`Varint.LenientReads`; `Varint.LenientRead` is one of them).
- **An empty frame in several events.** A WebSocket message that is one frame without payload is passed on once for
  each event in which the library reports it; every other message is passed on once, empty chunks or not
  (`WebSocket.Reassembled`).
- **A surplus return.** The count of borrowed packets is reads less returns, modulo 2^32
  (`PacketQueue.BorrowedExact`), and a session begins only when it is zero (`PacketQueue.BeginsExactly`). The interface
  forbids foreign pointers and double returns (include/sidp_transport.hpp:78-84); the code does not notice them, and
  then the count no longer says that the reader holds nothing: the next session may begin while it still holds a
  packet (`PacketQueue.SurplusHides`, from a state that is reached, `PacketQueue.SurplusExample`).

## Model

| member | source | states |
|---|---|---|
| `Machine.ImageUnique` | sidp_session.cpp:1698-1717 | The shadow table and target memory determine the program image: nothing else can be hidden behind the patches. |
| `Machine.NothingHidden` | sidp_session.cpp:1664-1679 | A table with nothing installed hides no byte, so memory is the image. |
| `Machine.ProgramRanTracks` | sidp_session.cpp:1036-1080 | A program that respects the patched instructions keeps table, memory and image in step, whatever else it writes. |
| `Machine.ProgramRanArmed` | sidp_session.cpp:1558-1571 | Such a program leaves every armed patch armed. |
| `Machine.RestedOrRan` | sidp_session.cpp:1036-1080 | A target that rested or ran its program has changed no remembered instruction in its image. |
| `Registers.U32RoundTrip` | sidp_session.cpp:1476-1480 | A 32-bit register value written as four bytes, the low one first, reads back as itself. |
| `Registers.EntryForm` | sidp_session.cpp:1386-1405 | A register entry is an id with its low byte first, the size of the value, flags and the value; a reader sees it exactly if the value has four bytes and the flags do not say that it is not available. |
| `Registers.PatchedParse` | sidp_session.cpp:1465-1484 | Overwriting the value of one register entry changes that value and no framing: the list parses to the same entries with the first program counter replaced. |
| `Registers.NormalizedBytes` | sidp_session.cpp:1465-1484 | Normalising a register blob changes at most the four value bytes of its first available program counter. |
| `Registers.NormalizedVisible` | sidp_session.cpp:1465-1484 | After normalising, the program counter a reader sees is the breakpoint address, unless the blob shows none. |
| `Registers.NormalizedParse` | sidp_session.cpp:1465-1484 | Normalising commutes with parsing: it is the replacement of the first program counter entry. |
| `Registers.TruthfulVisible` | sidp_session.cpp:1340-1348 | A truthful blob shows the physical program counter or none. |
| `Registers.SingleWriteVisible` | sidp_session.cpp:1486-1513 | A list that writes the program counter at most once shows exactly the value it writes. |
| `Registers.ValidateWriteList` | sidp_session.cpp:816-838 | The framing loop accepts exactly the lists that are a whole number of entries with values and without flags. |
| `Registers.FindEntry` | sidp_session.cpp:1386-1405 | The scan finds the first available 32-bit entry of a register, or none. |
| `Registers.NormalizePc` | sidp_session.cpp:1465-1484 | The in-place rewrite of the blob is the normalising function, and touches nothing outside the blob. |
| `Registers.CountEntries` | sidp_session.cpp:176-186 | The announced entry count is the number of entries a reader parses. |
| `TargetBackend.HaltKnownMeans` | include/sidp_backend.hpp:132-138 | The target counts as halted exactly when some call confirmed it and no later resume, reset, attach or detach gave it up. |
| `TargetBackend.DisciplinedEverywhere` | sidp_session.cpp:495-520 | In a disciplined history every single call was permitted by the calls before it, and changed the program image only as such a call may. |
| `TargetBackend.PatchWritesOnlyWhileHalted` | sidp_session.cpp:1535-1571 | Every write that installs or removes a patch, in any history, comes after a confirmed halt with no resume, reset or attach in between. |
| `TargetBackend.ImageAccounted` | sidp_session.cpp:1590-1738 | Between any two points of a history each byte of the program image that differs was rewritten by an attach, a reset or the peer, or belonged to a running program and to no remembered instruction: patches, restores, step-overs and housekeeping change nothing. |
| `TargetBackend.PeerWriteAccounted` | sidp_session.cpp:682-715 | A completed write of the peer puts exactly its bytes into the image it finds; a failed one some of them, where no patch hides the byte, and nothing else. |
| `TargetBackend.Target.Halt` | include/sidp_backend.hpp:132-135 | halt: success means confirmed halted, and a halted target is left as it was. |
| `TargetBackend.Target.PollHalted` | include/sidp_backend.hpp:139-140 | poll_halted: a stop is believed only when it is reported; meanwhile the program may run. |
| `TargetBackend.Target.Detach` | include/sidp_backend.hpp:169-172 | detach: a failure releases nothing; a caller must have restored memory first. |
| `TargetBackend.Target.WriteCode` | include/sidp_backend.hpp:148-149 | write_mem of code: complete, or torn byte by byte; the program image is untouched either way. |
| `TargetBackend.Target.WriteMem` | include/sidp_backend.hpp:148-149 | write_mem for the peer: the image receives the peer's bytes, or after a failure only some of them and only where no patch hides the byte; nothing beyond the range changes but by the program. |
| `TargetBackend.Target.WriteRegs` | include/sidp_backend.hpp:144-147 | write_regs: a list that names the program counter twice is rejected, and a failed write may have moved it. |
| `TargetBackend.Target.Resume` | include/sidp_backend.hpp:106-109 | resume: whatever it answers, the core may be running; it may only be called on a completely configured, halted target. |
| `TargetBackend.Target.Attach` | include/sidp_backend.hpp:123-131 | attach: whatever the target holds is its program; no comparator of an earlier connection is in force. |
| `TargetBackend.Target.Reset` | include/sidp_backend.hpp:136-138 | reset: the program is what it finds afterwards; only a confirmed halt counts as one. |
| `TargetBackend.Target.ReadMem` | include/sidp_backend.hpp:148-149 | read_mem: OK means every byte asked for, as it is in memory. |
| `TargetBackend.Target.ReadRegs` | include/sidp_backend.hpp:141-147 | read_regs: the program counter it shows is the physical one, and it writes nowhere but into the room it was given. |
| `TargetBackend.Target.ApplyBreakpoints` | include/sidp_backend.hpp:155-159 | apply_breakpoints: the comparators are replaced completely or not at all. |
| `TargetBackend.Target.ApplyWatchpoints` | include/sidp_backend.hpp:155-159 | apply_watchpoints: the same for watchpoints. |
| `TargetBackend.Target.SetVectorCatch` | include/sidp_backend.hpp:155-159 | set_vector_catch: the same for vector catch. |
| `ShadowTable.RestoredTracks` | sidp_session.cpp:1681-1696 | A completed restore puts the image back under that entry and nowhere else. |
| `ShadowTable.TornTracks` | sidp_session.cpp:1652-1662 | A torn patch or restore stays within what the installed entry hides. |
| `ShadowTable.PlantedTracks` | sidp_session.cpp:1652-1662 | Marking an entry installed before its write claims nothing false. |
| `ShadowTable.PeerWriteTracks` | sidp_session.cpp:682-715 | WRITE_MEMORY is a plain write to the image for any overlap with any number of breakpoints: the new table tracks the written image; after a torn failure the old shadows still do. |
| `ShadowTable.PeerWriteKeepsPatch` | sidp_session.cpp:682-704 | Neither a completed nor a torn peer write disarms a patch. |
| `ShadowTable.PeerWroteTracks` | sidp_session.cpp:682-715 | The same on a target that may be running while the write is made. |
| `ShadowTable.StoredPlain` | sidp_session.cpp:682-704 | Where no patch hides a byte, what is sent to the target is what the peer asked for. |
| `ShadowTable.FailsSafely` | sidp_session.cpp:682-709 | However a WRITE_MEMORY over armed breakpoints fails, it leaves every byte they cover as it was, exactly if behind each patched halfword the data repeats the instruction that is there. |
| `ShadowTable.FailsWithoutTrace` | sidp_session.cpp:682-709 | However it fails, it leaves the whole target as it was, which is what the protocol document promises, exactly if it changes no byte of the program but those hidden under patched halfwords. |
| `ShadowTable.ReadyWhenLifted` | sidp_session.cpp:1524-1541 | With the breakpoint lifted and the core on it, the bytes about to execute are the original instruction, and all other patches are armed. |
| `ShadowTable.StepsOriginal` | sidp_session.cpp:1524-1541 | The original bytes of any instruction of 2 or 4 bytes are at the step address exactly when no other patch starts inside it. |
| `ShadowTable.StepsOwnInstruction` | sidp_session.cpp:1524-1530 | Every byte of a breakpoint still in the table is stepped over as it was; so is its whole instruction unless the breakpoint was requested with a smaller size. |
| `ShadowTable.DroppedExample` | sidp_session.cpp:1524-1541 | A release that the rules permit and that executes a foreign patch: the breakpoint on a 32-bit instruction dropped, one set in the second half of it. |
| `ShadowTable.PlantNext` | sidp_session.cpp:1637-1646 | Patching one more remembered entry arms one more, and disturbs no other. |
| `ShadowTable.LiftFromArmed` | sidp_session.cpp:1524-1530 | Lifting one breakpoint leaves all the others armed and the rest of memory at the image. |
| `ShadowTable.ReplantArmed` | sidp_session.cpp:1564-1571 | Re-patching the lifted breakpoint arms the whole table again. |
| `ShadowTable.Table.InstallOne` | sidp_session.cpp:1652-1662 | Installing patches one slot; the slot counts as installed from before the write, so a failure is not forgotten. |
| `ShadowTable.Table.RestoreSlot` | sidp_session.cpp:1681-1696 | Restoring one slot: success writes the saved instruction, failure keeps the slot installed, an uninstalled slot costs no call. |
| `ShadowTable.RestoredMeans` | sidp_session.cpp:1664-1679 | A pass over the table keeps exactly the entries whose restoring write failed; every other installed entry was put back, by one write each. |
| `ShadowTable.Table.LiftOne` | sidp_session.cpp:1524-1530 | Lifting out of a fully armed table leaves exactly that entry out. |
| `ShadowTable.Table.ReplantOne` | sidp_session.cpp:1564-1571 | Putting it back arms the table; failing keeps it tracked as installed. |
| `ShadowTable.Table.RestoreAll` | sidp_session.cpp:1664-1679 | The in-place compaction keeps exactly the entries whose restoring write failed, in order, with one write for each installed entry; it succeeds exactly when the table ends empty, and then memory is the image. It fails only if a restoring write did. |
| `ShadowTable.Table.Apply` | sidp_session.cpp:1590-1650 | On success the table holds exactly the requested sites, all armed, none overlapping another and none on a BKPT of the program; SWD_ERROR means that a backend call failed, INVALID_ARGUMENT an overlap or a BKPT; image and program counter never change, and after any failure every entry left is one whose restoring write failed. |
| `ShadowTable.Table.RememberOne` | sidp_session.cpp:1596-1635 | One original is read and remembered, unless it overlaps an entry or is itself a BKPT; memory is untouched. It is refused with an error only if the read failed, it overlaps an earlier one, or a BKPT is there. |
| `ShadowTable.Table.Remember` | sidp_session.cpp:1596-1635 | All originals are remembered in request order before the first patch is written. |
| `ShadowTable.Table.PlantAll` | sidp_session.cpp:1637-1646 | Every remembered instruction is patched, or a patching write failed. |
| `ShadowTable.Table.SubstituteRead` | sidp_session.cpp:1698-1717 | The buffer read from the target becomes exactly the image of the range, for any overlap with any number of entries; bytes outside it are untouched. |
| `ShadowTable.Table.BuildWriteImage` | sidp_session.cpp:682-704 | What is sent keeps the first halfword of every installed patch and is the peer's data elsewhere. |
| `ShadowTable.Table.WriteOverlap` | sidp_session.cpp:1719-1738 | Every shadow takes over exactly the bytes of the write that fall on it, and nothing else of the table changes. |
| `ShadowTable.Table.FindByHaltPc` | sidp_session.cpp:1750-1760 | The slot behind the program counter is tried first, then the one at it, and only installed slots are found. |
| `ShadowTable.Table.FindByAddress` | sidp_session.cpp:1740-1748 | The first slot at an address, or none. |
| `ShadowTable.HitIdentified` | sidp_session.cpp:1750-1760 | A core that reports the address behind a patch is always attributed to it; one that reports the patch's own address is exactly when no installed patch sits two bytes below. |
| `ShadowTable.HitFound` | sidp_session.cpp:1750-1760 | A stop on an installed patch is put down to that patch exactly if its report is unmistaken, and otherwise to the neighbour two bytes below. |
| `ShadowTable.MistakenExample` | sidp_session.cpp:1750-1760 | A mistaken report: two installed patches side by side, and the address of the second. |
| `ShadowTable.SlotAtUnique` | sidp_session.cpp:1740-1748 | In a table of disjoint entries an address names one slot. |
| `Protocol.NormalizeAttachInfo` | sidp_session.cpp:285-356 | The report the peer relies on: limits clamped, no capability without the resource it needs, a transfer limit that is positive and fits a frame. |
| `Protocol.NormalizeKeeps` | sidp_session.cpp:285-356 | Sanitising withdraws no more than it must: a capability goes only with its resource or with the one it builds on, a limit is only lowered to what the session can hold, and the rest is what the backend said. |
| `Protocol.FramesFit` | sidp_session.cpp:1436-1443 | The fullest snapshot fills one frame of 8192 bytes exactly, and the largest transfer and the longest memory map fit one. |
| `Protocol.NormalizeIdempotent` | sidp_session.cpp:285-356 | Sanitising a sanitised report changes nothing. |
| `Protocol.RegionOf` | sidp_session.cpp:1794-1812 | The first region that holds the whole range, or none. |
| `Protocol.ValidateMemoryAccess` | sidp_session.cpp:1783-1846 | The verdict of the memory map: the range, then the first region that holds it whole, then that region's rules. |
| `Protocol.AdmissionMeans` | sidp_session.cpp:1805-1846 | What a region admits: reads where it is readable, writes where it is writable and never to flash, device memory only if the request allows it and as one aligned item of a named size, other memory in whole aligned items. |
| `Protocol.CheckRegion` | sidp_session.cpp:1805-1846 | The checks in their order give that verdict. |
| `Protocol.IsExecutableRange` | sidp_session.cpp:1854-1880 | A range is executable exactly when one region holds it all with the right permissions. |
| `Protocol.SortBreakpoints` | sidp_session.cpp:915-957 | Accepted breakpoint lists are split without loss or reordering into software and hardware parts within their limits, every software site inside writable executable RAM. |
| `Protocol.BreakpointsPicked` | sidp_session.cpp:915-957 | The software list is the breakpoints of kind 2 and the hardware list those of kind 1: all of them, in their order, with their ids, addresses and sizes. |
| `Protocol.ConfigMirrors` | sidp_session.cpp:915-1010 | The configuration of a RUN is what the request lists: breakpoints by kind, watchpoints with id, address, access and size, and the vector-catch mask. |
| `Protocol.SettableMeans` | sidp_session.cpp:915-957 | A software breakpoint is only admitted in one region of executable RAM that can be read and written, a hardware breakpoint only in one that can be executed. |
| `Protocol.CheckWatchpoints` | sidp_session.cpp:995-1008 | Accepted watchpoint lists are passed on whole and in order. |
| `Protocol.Sink.Send` | sidp_session.cpp:122-139 | The transport takes a whole frame of at most 8192 bytes or none of it. |
| `Protocol.AnsweredThenEvents` | sidp_session.cpp:141-158 | Events after an answer leave it the one answer, ahead of them. |
| `Protocol.AnsweredMeansOnce` | sidp_session.cpp:141-158 | An answered request adds exactly one response to the history of responses. |
| `Protocol.EventsAnswerNothing` | sidp_session.cpp:200-212 | Events add nothing to the history of responses. |
| `Protocol.WrapIsLate` | sidp_session.cpp:1321-1324 | At the wrap of the stop generation the loss precedes the answer, so the answer is late. |
| `Protocol.StopsOrderedStop` | sidp_session.cpp:1321-1329 | Reporting a new generation keeps the STOPPED ids strictly increasing. |
| `Protocol.AskedOneMore` | sidp_session.cpp:216-276 | One more input extends the history of responses by exactly the request it carried, if any. |
| `DebugSession.PeerWroteImage` | sidp_session.cpp:682-715 | A successful peer write leaves the image it found with exactly the requested bytes replaced, a failed one at most part of them where no patch hides the byte; memory beyond the range is what it was. |
| `DebugSession.ImageOverRun` | sidp_session.cpp:1590-1738 | Over every run of requests, polls and disconnects, whatever fails: a byte of the program image changes only in a turn whose input asked to load the target or to write that byte (and succeeded, if a patch hid it), or in which the running program wrote it and no breakpoint owned it. |
| `DebugSession.StepsWhole` | sidp_session.cpp:1515-1541 | The internal step of a RUN executes the whole original instruction exactly if that is a halfword or no breakpoint of that RUN starts two bytes behind. |
| `DebugSession.ClassExplains` | sidp_session.cpp:1286-1315 | The reported reason is the first, in the order of priority, of the causes a stop shows; slot and ids are those of that cause. |
| `DebugSession.StopAttributed` | sidp_session.cpp:1292-1299 | A core that ran into a patch, with no cause of higher priority, is reported under that breakpoint exactly if its report is unmistaken, and otherwise put down to the neighbour two bytes below. |
| `DebugSession.LaunchedAsAsked` | sidp_session.cpp:1036-1084 | Every release of a successful RUN is under the configuration the request lists, and the run itself continues, executes one instruction or runs to the address exactly as action 1, 2 or 3 says; a single step is one release. |
| `DebugSession.TrackingFollows` | sidp_session.cpp:1075-1077 | What the session follows while the core runs is the action, the address and the hardware breakpoint ids of the request. |
| `DebugSession.HitTold` | sidp_session.cpp:1286-1345 | A STOPPED event that tells of a stop on a patch shows, if it shows a program counter at all, the breakpoint the core ran into, and its id, exactly if the report is unmistaken, and otherwise the neighbour two bytes below. |
| `DebugSession.StackRange` | sidp_session.cpp:1410-1445 | The snapshot range is exactly what lies from 64 bytes below SP to 512 above it within the region, as far as the frame has room. |
| `DebugSession.Session.constructor` | sidp_session.cpp:34-36 | A new session is detached, with an empty table, and satisfies the invariant. |
| `DebugSession.Session.FinishFrame` | sidp_session.cpp:122-139 | A frame is queued whole or latches the transport dead, and a dead transport carries nothing. |
| `DebugSession.Session.SendResponse` | sidp_session.cpp:141-158 | One response is queued or the transport is dead; an unreported stop stays unreported and the order of stops is kept. |
| `DebugSession.Session.EnterLost` | sidp_session.cpp:1361-1369 | The target is given up once: TARGET_LOST is announced only on entering LOST, and any sound session is a valid one afterwards. |
| `DebugSession.Session.SendBackendFailure` | sidp_session.cpp:1371-1381 | A failed backend call is answered once: a protocol fault as a lost target, which is announced after the answer, a timeout as such, anything else as the request defines it. |
| `DebugSession.Session.EnterHalted` | sidp_session.cpp:1270-1351 | A stop opens the next generation with its reason, ids and snapshot; the logical program counter is that of the breakpoint the core ran into exactly if its report is unmistaken; table, memory and comparators stay; a lost target ignores it; at the wrap the target is lost. The pending snapshot is that of the stop: registers as the backend gave them, and the stack they point to. |
| `DebugSession.Session.Explain` | sidp_session.cpp:1286-1315 | The cascade reports a cause the stop shows, and none it shows comes before it in the order of priority; slot and ids are those of that cause. |
| `DebugSession.Session.NewGeneration` | sidp_session.cpp:1326-1350 | The generation grows by one, is not yet reported, and its snapshot shows the logical program counter and fits the frame. |
| `DebugSession.Session.OpenGeneration` | sidp_session.cpp:1321-1339 | The next generation is open, above every one reported, and its snapshot is empty. |
| `DebugSession.Session.WrapGeneration` | sidp_session.cpp:1321-1324 | At the wrap the target is lost and the invariant still holds. |
| `DebugSession.Session.CaptureSnapshot` | sidp_session.cpp:1341-1350 | The pending registers are exactly the backend's, with the logical program counter in place of the physical one, or none if the answer is of no use; the stack is what those registers point to. |
| `DebugSession.Session.FetchSnapshot` | sidp_session.cpp:1341-1348 | The register half of the snapshot. |
| `DebugSession.Session.NormalizePcInBlob` | sidp_session.cpp:1465-1484 | While a step-over is owed the blob shows the breakpoint address, otherwise it is left alone. |
| `DebugSession.Session.FindRam` | sidp_session.cpp:1406-1424 | The first readable RAM region that holds SP, or none. |
| `DebugSession.Session.CaptureStack` | sidp_session.cpp:1383-1451 | If the registers show a stack pointer in readable RAM, one read is made, and if it succeeds the stack bytes are the target's memory over the whole clipped range; otherwise there are none; the registers before them are untouched. |
| `DebugSession.Session.EmitPendingStopped` | sidp_session.cpp:1353-1359 | An unreported stop is reported once, by a frame that fits and carries the pending registers and stack, after everything already sent. |
| `DebugSession.Session.RollbackRunConfig` | sidp_session.cpp:1762-1770 | On success nothing of a configuration is left and memory is the image; the entries that remain are exactly those whose restoring write failed. It fails only if a backend call did. |
| `DebugSession.Session.FailRun` | sidp_session.cpp:1772-1779 | A RUN that could not be installed answers an error and leaves nothing installed on a halted target, or declares the target lost. |
| `DebugSession.Session.WriteCurrentPc` | sidp_session.cpp:1454-1463 | On success the core is at the address; a failure may or may not have moved it. |
| `DebugSession.Session.ExecuteStepOver` | sidp_session.cpp:1515-1586 | A pending breakpoint is stepped over by exactly one release, under the full configuration; Failed means none and keeps the rewind owed; once the step is confirmed halted no retry rewinds; success re-arms everything; the program's step leaves the image of every requested site alone. It fails only if a call did, or if the core was found running a hundred times in a row. |
| `DebugSession.Session.LiftAndRewind` | sidp_session.cpp:1524-1541 | When the step is issued the core stands on the breakpoint, its original instruction is in memory, and every other patch is armed. |
| `DebugSession.Session.AwaitStep` | sidp_session.cpp:1542-1562 | Bounded polling: confirmed exactly when the target is halted; meanwhile memory and image moved only as the program may move them. Unconfirmed means that a poll failed or that a hundred found the core running. |
| `DebugSession.Session.CompleteStep` | sidp_session.cpp:1542-1586 | A completed step ends as its outcome says, fully armed again; one that cannot be re-armed or confirmed is lost, and once it was confirmed nothing is owed any more. |
| `DebugSession.Session.OutcomeOf` | sidp_session.cpp:1573-1586 | A step ends in a stop of its own exactly if the stop shows a cause that is reported before the end of a step. |
| `DebugSession.Session.OpGetState` | sidp_session.cpp:539-559 | GET_STATE answers the state, and a stop id only while halted. |
| `DebugSession.Session.CheckAccess` | sidp_session.cpp:569-592 | A memory request passes exactly when it names the current stop, or is allowed while running and names none. |
| `DebugSession.Session.CheckRead` | sidp_session.cpp:561-605 | READ_MEMORY is admitted exactly when sizes, state, stop id and memory map all allow it. The status is that of the first check that fails. |
| `DebugSession.Session.CheckWrite` | sidp_session.cpp:633-680 | WRITE_MEMORY is admitted exactly when sizes, state, stop id and memory map all allow it. The status is that of the first check that fails. |
| `DebugSession.Session.FetchImage` | sidp_session.cpp:607-626 | The response buffer holds exactly the image bytes of the range. |
| `DebugSession.Session.StoreImage` | sidp_session.cpp:682-715 | One backend write: on success the image has exactly the peer's bytes replaced and the shadows follow; a failure reaches at most unhidden bytes of the range; in every case armed patches stay armed and nothing beyond the range is touched. |
| `DebugSession.Session.FetchRegisters` | sidp_session.cpp:758-790 | What the peer gets is exactly the backend's blob with the logical program counter in it; a size that does not fit is refused. |
| `DebugSession.Session.CheckRegisterRead` | sidp_session.cpp:722-750 | READ_REGISTERS is admitted exactly for the current stop, core 0 and a bounded list. |
| `DebugSession.Session.CheckRegisterWrite` | sidp_session.cpp:802-838 | WRITE_REGISTERS is admitted exactly for the current stop, core 0 and a well-formed list that is not empty. |
| `DebugSession.Session.UpdateStepOver` | sidp_session.cpp:1486-1513 | A pending step-over is cancelled exactly when the list moves the program counter away from it. |
| `DebugSession.Session.OpReadMemory` | sidp_session.cpp:561-631 | An OK answer carries exactly the image bytes of the requested range, so no patch is ever visible; the one backend call is made exactly when the request is admitted. Its status is OK exactly if it is admitted and the read succeeds, and otherwise says which check or which failure it was. |
| `DebugSession.Session.OpWriteMemory` | sidp_session.cpp:633-717 | An OK answer means the image has exactly the requested bytes replaced; a refusal touches nothing, a failure at most unhidden bytes of the range; armed patches stay armed, a failure leaves all shadows alone, and the backend is called exactly when the request is admitted. The status says which check or which failure it was. |
| `DebugSession.Session.OpReadRegisters` | sidp_session.cpp:720-800 | An OK answer is the backend's blob with the logical program counter in it, and its entry count is what a reader parses; the backend is called exactly when the request is admitted. A failure is answered by its cause. |
| `DebugSession.Session.OpWriteRegisters` | sidp_session.cpp:802-850 | A program counter the peer writes becomes the logical one and cancels a pending step-over exactly when it points elsewhere; a refused write changes neither. A failure is answered by its cause. |
| `DebugSession.Session.StoreRegisters` | sidp_session.cpp:840-850 | The same for the write itself: what a failed write may have done to the program counter is not claimed. |
| `DebugSession.Session.OpHalt` | sidp_session.cpp:1094-1125 | HALT answers before the STOPPED it causes, exactly unless the stop generation wraps, when TARGET_LOST and then the answer go out; a running target gets the next generation, a held stop its own, a reported one TARGET_HALTED and no backend call. A STOPPED it sends tells of the stop at the core's physical program counter: cause, ids and place. It carries the registers read at that stop and the target's memory around SP. A failed halt is answered by its cause. |
| `DebugSession.Session.HaltTarget` | sidp_session.cpp:1114-1124 | Halting a running target: response, then the STOPPED of the next generation; at the last generation, and only there, the loss and then the response. A STOPPED it sends tells of the stop at the core's physical program counter: cause, ids and place. It carries the registers read at that stop and the target's memory around SP. |
| `DebugSession.Session.AnswerAndReport` | sidp_session.cpp:1117-1124 | The response goes out before the stop it caused. |
| `DebugSession.Session.PollOnce` | sidp_session.cpp:1224-1238 | A poll reports a halt under the next generation, gives the target up when the observation fails, and otherwise changes nothing the peer sees; the image moves only as the program may move it. A STOPPED it sends tells of the stop at the core's physical program counter: cause, ids and place. It carries the registers read at that stop and the target's memory around SP. A loss is announced, by its cause. |
| `DebugSession.Session.PrepareReset` | sidp_session.cpp:1127-1145 | Before a reset the target is halted and bare, memory equal to the image; otherwise the request is answered with an error. From RUNNING at the last generation, and only then, the target is lost first. |
| `DebugSession.Session.HaltFirst` | sidp_session.cpp:1129-1138 | A running target is halted under a generation of its own before it is reset, or the request is answered with an error; at the last generation it is lost instead. |
| `DebugSession.Session.StripConfig` | sidp_session.cpp:1139-1145 | Nothing is left installed and memory is the image, or the target is lost after the error answer. |
| `DebugSession.Session.ResetBare` | sidp_session.cpp:1170-1176 | A reset keeps a bare target bare; a failed one loses the target after the error answer. |
| `DebugSession.Session.HoldReset` | sidp_session.cpp:1178-1183 | The stop behind a reset has reason RESET and opens the next generation on a bare target. |
| `DebugSession.Session.OpResetHalt` | sidp_session.cpp:1147-1186 | The stop behind a reset continues the generations, with reason RESET and an empty configuration, after the one response; the loss precedes the response exactly if the generations it needs, one from HALTED and two from RUNNING, wrap. An admissible request fails only if a call did or the halt is not confirmed; the STOPPED carries the snapshot of that stop. |
| `DebugSession.Session.ResetToHalt` | sidp_session.cpp:1157-1186 | The reset itself, once the request is admissible. |
| `DebugSession.Session.OpResetRun` | sidp_session.cpp:1188-1222 | An OK answer means the target runs with no debug resource left in it; from RUNNING at the last generation the loss precedes the response, and the target is RUNNING again after LOST. An admissible request fails only if a call did or the halt is not confirmed. |
| `DebugSession.Session.ResetToRun` | sidp_session.cpp:1198-1222 | The reset itself, once the request is admissible. |
| `DebugSession.Session.OpDetach` | sidp_session.cpp:482-537 | An OK answer: the table was empty, memory was the image, and the core stood at the logical program counter when it was let go, or, from RUNNING, on the breakpoint it had run into exactly if its report is unmistaken; a failure keeps the attachment and the rewind for a retry; the image moves only as the program may move it. A well-formed request is refused only if a call since then failed, so one whose calls all succeed is answered OK; the target runs on exactly if action 2 asked for it. |
| `DebugSession.Session.HaltForDetach` | sidp_session.cpp:494-511 | The internal halt remembers the breakpoint it finds the core on without reporting a stop. |
| `DebugSession.Session.GiveBack` | sidp_session.cpp:513-536 | Rewind, restore, detach: the target is released only after all three, and a failure of any loses no shadow. |
| `DebugSession.Session.Release` | sidp_session.cpp:516-529 | Success: the core was on the logical program counter and memory was the image when it was let go; failure keeps the core halted and the logical program counter what it was. It fails only if the register write, a restoring write or the detach did. |
| `DebugSession.Session.Unpatch` | sidp_session.cpp:516-524 | Rewind and restore: on success the core is where the peer believes it is and memory is the image; failure means a failed call and loses no shadow. |
| `DebugSession.Session.HandleDisconnect` | sidp_session.cpp:1240-1266 | Latches the transport dead and sends nothing; true means not attached, an empty table and an unpatched target left halted; false keeps the attachment, lost, with every byte that differs from the image still covered; the image of a halted target is what it was, and otherwise moves only as the program may move it. It is false only if a call failed or the halt was not confirmed. |
| `DebugSession.Session.TakeBack` | sidp_session.cpp:1250-1257 | The target is let go only with an empty table and memory equal to the image. It fails only if a restoring write or the detach did. |
| `DebugSession.Session.Forget` | sidp_session.cpp:1259-1264 | Nothing of the connection is left but its frames. |
| `DebugSession.Session.OpAttach` | sidp_session.cpp:358-480 | A fresh connection, OK exactly if the backend attaches and its memory map has whole records and at most 64 of them: the answer is the sanitised report, the table is empty, memory is the image, and the target is halted and reported as generation 1 or left running, as asked, unless a call fails; a rejected memory map ends the connection after its error answer. |
| `DebugSession.Session.Establish` | sidp_session.cpp:396-480 | The same from the report on. |
| `DebugSession.Session.Adopt` | sidp_session.cpp:385-450 | The attach response fits a frame and carries the sanitised report; more than 64 regions, or a broken list, is refused. |
| `DebugSession.Session.RejectMap` | sidp_session.cpp:403-410 | A memory map the session cannot hold is answered with an error, and the connection ends. |
| `DebugSession.Session.StartSession` | sidp_session.cpp:389-402 | A fresh session: no table, no stop, no pending rewind, and the sanitised limits. |
| `DebugSession.Session.HoldAfterAttach` | sidp_session.cpp:452-480 | The first state: running if no halt was asked for; otherwise halted and reported as generation 1 with its snapshot, unless a call fails. |
| `DebugSession.Session.CheckRun` | sidp_session.cpp:852-1010 | An accepted RUN carries the current stop id and a configuration within every limit; run-to-address has a comparator to use. |
| `DebugSession.Session.CheckRunFields` | sidp_session.cpp:860-889 | The fixed fields pass exactly when core, stop id, action, address and vector catch are acceptable. |
| `DebugSession.Session.Install` | sidp_session.cpp:1012-1034 | On success the whole configuration is in force before any release, on sites that held no BKPT of their own; image and program counter are untouched either way. It fails only if a call did, or if the breakpoints overlap or one sits on a BKPT of the program. |
| `DebugSession.Session.InstallHardware` | sidp_session.cpp:1018-1034 | Comparators, watchpoints and vector catch are as asked, with the software side untouched. |
| `DebugSession.Session.InstallAndLaunch` | sidp_session.cpp:1012-1078 | The release, if any, comes after the whole configuration is in force; a failed installation leaves nothing of it. |
| `DebugSession.Session.OpRun` | sidp_session.cpp:852-1092 | RUN is all or nothing: a refusal without loss made no backend call or left nothing installed on the halted target, with no release and the rewind still owed, and so keeps the earlier configuration exactly if it made no call or there was none; success released the core exactly as asked, under exactly the requested configuration; an internal step executes the whole original instruction exactly if it is a halfword or no requested breakpoint starts two bytes behind. Each release carries the lists of the request and the action it asks for, 1, 2 or 3; an admissible request fails only if a call did, the core never finished its step, or the breakpoints overlap or sit on a BKPT; a stop by then is reported with cause, place and snapshot. |
| `DebugSession.Session.Launch` | sidp_session.cpp:1036-1078 | The four outcomes of the step-over: undone, lost, reported as the stop it ended in, or followed by the real resume. It fails only if a call did or the step never ended; a stop it reports is the one the step or the run ended in. |
| `DebugSession.Session.LoseRun` | sidp_session.cpp:1049-1054 | A step-over that cannot be accounted for loses the target, after the one answer. |
| `DebugSession.Session.ReportStep` | sidp_session.cpp:1057-1066 | The instruction under the breakpoint was all that ran: response, then the stop it ended in. Unless a single step was asked for, the STOPPED tells of that stop: cause, ids and place. It carries the registers read at that stop and the target's memory around SP. |
| `DebugSession.Session.Go` | sidp_session.cpp:1066-1092 | The real resume happens once, under the whole configuration; a failed acknowledgement loses the target, and the response precedes the first poll. A stop found by that poll is reported with cause, place and snapshot. |
| `DebugSession.Session.Follow` | sidp_session.cpp:1078-1092 | The request is answered first, and then one look reports a stop the core has already run into. |
| `DebugSession.Session.HandleRequest` | sidp_session.cpp:216-276 | Each well-formed request on a live transport is answered exactly once; the answer precedes its events exactly unless a halt it asks for wraps the stop generation; anything else is ignored; a lost target is answered TARGET_LOST and left alone; only DETACH reaches DETACHED; only calls that belong to the request are made, and the image is accounted for by them. A state bars exactly the requests it should, each with its status and without effect, and an admitted one does what its operation promises. |
| `DebugSession.Session.Dispatch` | sidp_session.cpp:244-276 | Every admitted request is answered exactly once; a lost target is not touched; only DETACH ends an attachment. Each opcode is served by its own operation. |
| `DebugSession.Session.HandlePoll` | sidp_session.cpp:1224-1238 | A tick answers nothing, does nothing at all unless the session is attached, live and running, and makes only harmless calls, by which the image is accounted for. A STOPPED it sends tells of the stop at the core's physical program counter: cause, ids and place. It carries the registers read at that stop and the target's memory around SP. |
| `DebugSession.Session.Step` | sidp_session.cpp:216-266 | Every input keeps the invariant and is one turn: its calls, its frames in order, the image accounted for; LOST and a dead transport are absorbing except for the disconnect. A request does what its operation promises, a tick looks at a running target, and the loss of the peer gives it back or loses it for a reason. |
| `DebugSession.Session.TakeRequest` | sidp_session.cpp:216-276 | The turn of a message. |
| `DebugSession.Session.TakeTick` | sidp_session.cpp:1224-1238 | The turn of a tick: a live running session makes one observation, reports a stop with its snapshot, or announces the loss. |
| `DebugSession.Session.TakeLeave` | sidp_session.cpp:1240-1266 | The turn in which the peer is lost: an attached target is given back unpatched, or lost because a call failed or the halt was not confirmed. |
| `DebugSession.Session.Serve` | sidp_session.cpp:216-266 | Over a whole run, turn by turn: the responses are exactly the requests, in order, each ahead of its events, while the transport lives; a dead transport carries nothing more; a lost target is never touched again and causes no event; every call belongs to its input; the history of backend calls stays disciplined and the image accounted for throughout. On a running target every tick is one observation whose stop or loss is reported, and every OK answer to READ_MEMORY is the image at that turn. |
| `DebugSession.PcEntryWrites` | sidp_session.cpp:1454-1463 | The register list built for a rewind writes exactly that program counter. |
| `Crc.StepsLinear` | sidp_transport.cpp:8-26 | The division is linear over exclusive or. |
| `Crc.StepsOfHigh` | sidp_transport.cpp:34-44 | Zero low bits just move out of the register. |
| `Crc.LookupIsDivision` | sidp_transport.cpp:34-44 | One table lookup is eight steps of the bitwise division. |
| `Crc.DivideAppend` | sidp_transport.cpp:34-44 | Updating over a concatenation is updating over its parts in turn. |
| `Crc.DivideInjective` | sidp_transport.cpp:34-44 | Different registers stay different over the same bytes. |
| `Crc.ShortBurst` | sidp_transport.cpp:34-44 | Up to four bytes enter the register without loss. |
| `Crc.BurstDetected` | sidp_transport.cpp:34-44 | Changing at most four consecutive bytes always changes the remainder. |
| `Crc.SetThenVerify` | sidp_transport.cpp:67-88 | Setting the CRC touches no covered byte and makes the message verify. |
| `Crc.VerifiedIsSet` | sidp_transport.cpp:78-88 | A message verifies only with the one CRC field its covered bytes determine. |
| `Crc.CorruptionDetected` | sidp_transport.cpp:78-88 | Any change of a valid message confined to four consecutive covered bytes makes verification fail. |
| `Crc.MakeTable` | sidp_transport.cpp:8-26 | The table holds eight division steps of every byte value. |
| `Crc.CheckValue` | sidp_transport.cpp:33-48 | The check value of this CRC over the nine digits from 1. |
| `Crc.VerifiedMeans` | sidp_transport.cpp:50-90 | A message verifies exactly if it has 12 to 8192 bytes and bytes 8 to 11 hold, the low one first, the CRC of all the others. |
| `Crc.BuildEntry` | sidp_transport.cpp:13-22 | One entry, by the shift-and-xor loop. |
| `Crc.Update` | sidp_transport.cpp:34-44 | The table-driven update computes the bitwise division for every state and input. |
| `Crc.CalculateMessage` | sidp_transport.cpp:51-65 | The CRC of a message covers all but its own field, and exists exactly for sizes 12 to 8192. |
| `Crc.SetMessageCrc` | sidp_transport.cpp:67-76 | The buffer is changed in place in its CRC field only, or not at all. |
| `Crc.VerifyMessageCrc` | sidp_transport.cpp:78-88 | Verification succeeds exactly for messages that carry their own CRC. |
| `Slip.EscapedSize` | sidp_transport_cdc.cpp:318-334 | An escaped message is at most twice as long and never contains END. |
| `Slip.WireBytes` | sidp_transport_cdc.cpp:318-334 | END and ESC are escaped into the two bytes each that the standard gives, and every other byte stands for itself. |
| `Slip.Encoder.EncodeMessage` | sidp_transport_cdc.cpp:307-334 | The transmit buffer holds exactly the encoding, and no message of one frame overruns it. |
| `Slip.RunAppend` | sidp_transport_cdc.cpp:221-237 | Decoding a concatenation is decoding its parts in turn, so chunking does not matter. |
| `Slip.ByteRoundTrip` | sidp_transport_cdc.cpp:323-334 | An escaped byte decodes to itself. |
| `Slip.BodyRoundTrip` | sidp_transport_cdc.cpp:307-316 | The body of an encoding decodes to the message and passes nothing on early. |
| `Slip.DecodesExactly` | sidp_transport_cdc.cpp:240-296 | The bytes between two ENDs give a packet if and only if they are the encoding of it, it is not empty and it fits a frame: broken escapes and overlong frames give nothing. |
| `Slip.MessageRoundTrip` | sidp_transport_cdc.cpp:240-288 | From any decoder state an encoding passes on at most the leftover frame and then its message. |
| `Slip.StreamRoundTrip` | sidp_transport_cdc.cpp:240-334 | Round trip and resynchronisation: whatever came before, every message of a stream of encodings comes out, whole and in order, after at most one leftover packet. |
| `Slip.PacketsFit` | sidp_transport_cdc.cpp:290-298 | No input makes the decoder pass on an empty packet or one beyond a frame. |
| `Slip.Decoder.ConsumeInputByte` | sidp_transport_cdc.cpp:240-288 | The byte-at-a-time decoder is the decoding function, one byte at a time. |
| `Slip.Decoder.AppendDecodedByte` | sidp_transport_cdc.cpp:290-298 | A byte is appended, or the frame is discarded when it is full. |
| `Slip.Decoder.ConsumeChunk` | sidp_transport_cdc.cpp:229-236 | A chunk passes on exactly the packets of the decoding function, each byte of them read under the present epoch. |
| `Slip.Decoder.DrainCdcInput` | sidp_transport_cdc.cpp:209-238 | All chunks together decode as one stream, and every byte of every packet was read under the one epoch; a decoder from another epoch, or closed at the first look, starts afresh, and a session closed at the second look reads nothing. |
| `WebSocket.EpochForgets` | sidp_transport_websocket.cpp:158-162 | Nothing staged under another receive epoch can reach a packet of this one. |
| `WebSocket.ChunkHandled` | sidp_transport_websocket.cpp:184-222 | One event extends the message by its chunk, or completes it, or gives it up once it is too long. |
| `WebSocket.MessagePassed` | sidp_transport_websocket.cpp:184-222 | A message, however fragmented and chunked, empty chunks included, is passed on whole if it fits, is dropped otherwise, and leaves nothing behind; one frame without payload is passed on as often as it is reported. |
| `WebSocket.EmptyRepeats` | sidp_transport_websocket.cpp:184-222 | A message that is a single frame without payload is passed on, empty, once for each event that reports it. |
| `WebSocket.ControlIgnored` | sidp_transport_websocket.cpp:170-176 | Frames of any opcode but binary and continuation change nothing that is staged, wherever they come. |
| `WebSocket.OtherFrames` | sidp_transport_websocket.cpp:169-176 | One event of such a frame, a ping with a payload say, stages nothing and passes nothing on. |
| `WebSocket.BrokenEvents` | sidp_transport_websocket.cpp:164-200 | A chunk outside its frame gives the message up, and a continuation of nothing or a negative size is ignored. |
| `WebSocket.PacketsBounded` | sidp_transport_websocket.cpp:201-223 | No events make a packet longer than a frame. |
| `WebSocket.Reassembled` | sidp_transport_websocket.cpp:156-223 | For every split of messages into frames and of frames into chunks, empty ones included, with control frames anywhere, the packets passed on are the messages of at most 8192 bytes, in order; each exactly once if and only if no message is a single empty frame reported in several events. |
| `WebSocket.Receiver.HandleData` | sidp_transport_websocket.cpp:156-223 | The event handler over the staging buffer is the reassembly function, on what is staged or afresh; each of its two looks at the link decides what it decides in the code. |
| `WebSocket.Receiver.CopyChunk` | sidp_transport_websocket.cpp:202-212 | A chunk is copied behind what is staged, or the message is given up. |
| `PacketQueue.EveryInterleaving` | sidp_transport_queue.cpp:32-249 | In every state of every interleaving: serials accepted at most once and increasing, the reader's packets of the current epoch and session, the frame on the wire of the last accepted session, order without gaps in every session, and a count of waiting frames that is exact. |
| `PacketQueue.NextInv` | sidp_transport_queue.cpp:32-249 | Every atomic step keeps that invariant. |
| `PacketQueue.EpochMeansSession` | sidp_transport_queue.cpp:32-40 | An epoch that is unchanged means an unbroken session. |
| `PacketQueue.DeliveredWhereAssembled` | sidp_transport_queue.cpp:140-150 | A packet is queued only in the very session, still unbroken, whose epoch was sampled before its first byte was read. |
| `PacketQueue.HistoryIsKept` | sidp_transport_queue.cpp:159-176 | What a session accepted, sent, received and read never changes once it is over, and only grows before. |
| `PacketQueue.FlightStays` | sidp_transport_queue.cpp:216-249 | No session can begin while a frame is on the wire. |
| `PacketQueue.LogsYield` | sidp_transport_queue.cpp:221-233 | A log frame leaves its ring only while no control frame waits. |
| `PacketQueue.FlushMeansSent` | sidp_transport_queue.cpp:188-203 | A flush that answers OK has seen every control frame and every log frame of the session handed to the wire. |
| `PacketQueue.RecordsAreTrue` | sidp_transport_queue.cpp:70-249 | In every interleaving the records of each session are exactly its traffic in events and results: messages answered OK, frames put on the wire, packets that entered the ring, packets the reader got. |
| `PacketQueue.FirstInFirstOut` | sidp_transport_queue.cpp:70-249 | In every interleaving and every session the k-th frame put on the wire is the k-th message answered OK, control and log frames each in their order, and the k-th packet read is the k-th delivered; what is missing is still in the ring. |
| `PacketQueue.FlushedMeans` | sidp_transport_queue.cpp:188-203 | When a flush answers OK, all messages answered OK in the session have gone to the wire. |
| `PacketQueue.EnqueuedExactly` | sidp_transport_queue.cpp:159-176 | A message is answered OK exactly on an open session with room, with a header and no more than a frame, and for a log only if it is one and fits a log frame. |
| `PacketQueue.DeliveredExactly` | sidp_transport_queue.cpp:140-150 | A packet is delivered exactly if it verifies, carries version 1, comes under the epoch of the open session, and the ring has room. |
| `PacketQueue.TakenExactly` | sidp_transport_queue.cpp:216-236 | A transmit service takes a frame exactly on an open session with none in flight and one waiting. |
| `PacketQueue.Queues.CloseLocked` | sidp_transport_queue.cpp:32-40 | Closing latches the transport dead, starts a new epoch and empties the rings. |
| `PacketQueue.Queues.LinkChangedTo` | sidp_transport_queue.cpp:48-54 | Both boundaries of a connection close the session; a new link has a new serial. |
| `PacketQueue.Queues.BeginSession` | sidp_transport_queue.cpp:56-68 | A session begins only on a live link not accepted before, with nothing in flight and nothing borrowed. |
| `PacketQueue.Queues.StartRead` | sidp_transport_queue.cpp:70-93 | The reader gets the oldest packet of the session, or is told that there is none or that the session is closed. |
| `PacketQueue.Queues.EndReading` | sidp_transport_queue.cpp:95-102 | A returned packet is no longer borrowed; a null return changes nothing; a surplus return wraps the count. |
| `PacketQueue.BorrowedExact` | sidp_transport_queue.cpp:56-102 | In every state of every interleaving the count of borrowed packets is the packets read less the packets returned, modulo the width of the counter, whatever the reader returns. |
| `PacketQueue.BeginsExactly` | sidp_transport_queue.cpp:56-68 | In every interleaving a session begins exactly on a live link not accepted before, with nothing in flight and as many packets returned as read, modulo the width of the counter; for a reader that returns what it holds, once, that is none outstanding. |
| `PacketQueue.SurplusHides` | sidp_transport_queue.cpp:56-102 | In every open session with a packet waiting and none borrowed, a return outside the interface makes up for the next read, and the next session begins while that packet is still in the reader's hands. |
| `ReceivePath.QueuedFromOneSession` | sidp_transport_cdc.cpp:209-238 | In every interleaving, whatever the two looks at the link say, a packet the serial transport gets queued was assembled from bytes read in one unbroken session, the one it is queued in; nothing read before that session has a part in it. |
| `ReceivePath.OneEpoch` | sidp_transport_cdc.cpp:209-218 | What the decoder holds was read under the one epoch it carries, since it last started afresh. |
| `ReceivePath.StagedFromOneSession` | sidp_transport_websocket.cpp:156-163 | The same for a packet the WebSocket transport gets queued, again with two looks at the link. |
| `PacketQueue.Queues.DeliverPacket` | sidp_transport_queue.cpp:140-150 | Invalid packets and packets of another epoch are dropped; an unknown version or a full ring ends the session. |
| `PacketQueue.Queues.EnqueueFrame` | sidp_transport_queue.cpp:159-176 | A frame is queued whole behind its own kind; a full control ring ends the session, a full log ring only drops the log. |
| `PacketQueue.Queues.ServiceTxTake` | sidp_transport_queue.cpp:216-236 | The first critical section takes the oldest control frame, or a log if there is none. |
| `PacketQueue.Queues.ServiceTxReturn` | sidp_transport_queue.cpp:239-248 | The second returns the frame; a failed send ends the session. |
| `PacketQueue.Queues.FlushWrite` | sidp_transport_queue.cpp:188-203 | OK only when everything accepted was handed to the wire. |
| `Varint.CanonicalMeans` | nanopb/pb_encode.c:582-614 | The canonical base-128 form ends where it says and stands for its value. |
| `Varint.EncodeVarint32` | nanopb/pb_encode.c:582-614 | The two-word encoder without 64-bit shifts writes the canonical form, in at most ten bytes. |
| `Varint.RoundTrip64` | nanopb/pb_decode.c:246-266 | The 64-bit decoder inverts the encoder, whatever follows on the wire. |
| `Varint.Parse64Fits` | nanopb/pb_decode.c:246-266 | Whatever the 64-bit decoder accepts fits 64 bits. |
| `Varint.RoundTrip32` | nanopb/pb_decode.c:174-238 | Every unsigned 32-bit value comes back through the 32-bit reader. |
| `Varint.RoundTripNegative` | nanopb/pb_decode.c:174-238 | Every negative 32-bit value comes back from the ten bytes of its 64-bit form. |
| `Varint.Parse32Truncates` | nanopb/pb_decode.c:174-238 | The 32-bit reader accepts nothing the 64-bit one rejects and agrees with it modulo 2^32. |
| `Varint.ReadsExactly` | nanopb/pb_decode.c:198-222 | Exactly which of the varints it accepts the 32-bit reader reads without loss: those with nothing above the low word. |
| `Varint.ReadsSignExtension` | nanopb/pb_decode.c:198-209 | Exactly which of them are sign extensions of a negative 32-bit value, and that it then gives that value's word. |
| `Varint.LenientReads` | nanopb/pb_decode.c:198-222 | All others it accepts too, and drops their high part without an error. |
| `Varint.ZigZagMeans` | nanopb/pb_encode.c:634-644 | Mask, shift and complement order the values 0, -1, 1, -2 and so on. |
| `Varint.ZigZagBijection` | nanopb/pb_decode.c:1393-1405 | Zigzag and its inverse are a bijection between the signed and the unsigned 64-bit values. |
| `FieldIter.Iterator.Find` | nanopb/pb_common.c:195-244 | From any position the circular search stops, and finds exactly what a plain scan finds. |
| `FieldIter.Iterator.AdvanceIterator` | nanopb/pb_common.c:122-154 | The cursor moves record by record over 1, 2, 4 or 8 words, its counters in step, and wraps to the first. |
| `FieldIter.Iterator.LoadDescriptorValues` | nanopb/pb_common.c:8-54 | Tag and type are those of the record under the cursor. |
| `FieldIter.Iterator.Next` | nanopb/pb_common.c:188-193 | One step forward; false exactly when it wrapped. |
| `FieldIter.TagLow` | nanopb/pb_common.c:222-228 | The fast check on six tag bits never misses a field. |
| `FieldIter.ScanIs` | nanopb/pb_common.c:195-244 | In a descriptor in tag order a tag names one field. |
| `MessageLaws.ValueRoundTrip` | nanopb/pb_decode.c:405-474 | Every value of every kind decodes from its bytes, a nested message from any of its spellings. |
| `MessageLaws.NumberRoundTrip` | nanopb/pb_decode.c:1462-1532 | Integers of every width and sign, booleans and fixed words come back exactly. |
| `MessageLaws.WireForms` | nanopb/pb_encode.c:616-760 | The form of every record on the wire: the tag above three bits of wire type, then a base-128 number, four or eight bytes with the low one first, or a length and that many bytes; negative and zigzag numbers as the encoding defines them. |
| `MessageLaws.AcceptedFits` | nanopb/pb_decode.c:1457-1698 | Whatever the bytes, the decoder stores no value its member cannot hold: numbers out of range, strings beyond their buffer and byte arrays of another size are refused. |
| `MessageLaws.AcceptedSlot` | nanopb/pb_decode.c:405-564 | A record is accepted only with the wire type of its field, or packed for an array of numbers, and no array outgrows its capacity. |
| `MessageLaws.DecodeFieldLocal` | nanopb/pb_decode.c:365-403 | What a field decodes to depends only on the bytes it takes. |
| `MessageLaws.DecodeRecords` | nanopb/pb_decode.c:1055-1140 | Decoding a concatenation of records applies them one after the other. |
| `MessageLaws.UnknownIgnored` | nanopb/pb_decode.c:1085-1112 | Fields the schema does not know change nothing. |
| `MessageLaws.PackedRoundTrip` | nanopb/pb_decode.c:489-517 | Packed elements come back one after the other. |
| `MessageLaws.PartArrives` | nanopb/pb_decode.c:486-529 | One record of an array appends exactly the elements it carries, whether packed or a single one. |
| `MessageLaws.FieldArrives` | nanopb/pb_decode.c:476-564 | Each record of a field brings its slot one step further: an element, a value that replaces the one before, or another piece of a message. |
| `MessageLaws.ScalarArrives` | nanopb/pb_decode.c:476-487 | An occurrence of a number or a string replaces whatever earlier occurrences left. |
| `MessageLaws.MessagePartArrives` | nanopb/pb_decode.c:1624-1674 | An occurrence of a message brings the struct built by earlier occurrences the fields it carries, and no others. |
| `MessageLaws.UnknownArrives` | nanopb/pb_decode.c:1085-1112 | A record of a field the schema does not have leaves the struct as it was. |
| `MessageLaws.KnownArrives` | nanopb/pb_decode.c:1055-1140 | A record of a field the schema has advances that field and no other, wherever it comes in the message. |
| `MessageLaws.OthersUnchosen` | nanopb/pb_decode.c:531-555 | While a member of a oneof arrives the other members are at their defaults. |
| `MessageLaws.SpellingDecodes` | nanopb/pb_decode.c:1027-1189 | Every spelling of a message decodes to it: at any depth fields in any order, fields of a newer schema in between, earlier occurrences of a field, a message in several pieces, arrays packed, one by one or in several chunks. |
| `MessageLaws.EncodedSpells` | nanopb/pb_encode.c:521-543 | What the encoder writes is one of the spellings of the message, at every level. |
| `MessageLaws.DefaultsSilent` | nanopb/pb_encode.c:253-368 | A field at its default is not written, but for a singular byte array of fixed size. |
| `MessageLaws.WrittenInOrder` | nanopb/pb_encode.c:521-543 | Fields are written in the order of their tags. |
| `MessageLaws.MessageRoundTrip` | nanopb/pb_decode.c:1027-1189 | Decoding inverts encoding for schemas of singular, optional, repeated, oneof and nested fields. |
| `MessageRepeats.FieldsIndependent` | nanopb/pb_decode.c:1027-1189 | Decoding any list of records is decoding each field on its own, in both directions: it succeeds exactly if every record can be read and every field follows its records, and then each slot is what its field makes of them. |
| `MessageRepeats.LastWins` | nanopb/pb_decode.c:476-487 | If a singular or optional field occurs again later, an earlier occurrence makes no difference, whatever comes in between, except that the message is refused if it cannot be read. |
| `MessageRepeats.LastMemberChosen` | nanopb/pb_decode.c:531-555 | A oneof holds the member that came last, and every other member is at its default. |
| `MessageRepeats.Merged` | nanopb/pb_decode.c:1624-1674 | Two occurrences of a message field, in a oneof or not, whatever other fields come in between, are one that carries the bytes of both, exactly if the first can be read on its own; else the message is refused. |
| `MessageInput.ScanIsFieldWith` | nanopb/pb_common.c:195-244 | The tag search over the descriptor words and a scan of the schema find the same field. |
| `MessageInput.FindField` | nanopb/pb_decode.c:1079-1080 | The decoder finds its field by the circular search, from wherever the last one left the cursor. |
| `MessageInput.IStream.DecodeVarint` | nanopb/pb_decode.c:246-266 | The loop reads exactly the 64-bit varint at the head of the stream, or fails exactly when there is none. |
| `MessageInput.IStream.DecodeVarint32` | nanopb/pb_decode.c:174-238 | The loop reads exactly what the 32-bit rules accept. |
| `MessageInput.IStream.SkipField` | nanopb/pb_decode.c:311-321 | An unknown field is skipped by exactly its size. |
| `MessageInput.IStream.MakeStringSubstream` | nanopb/pb_decode.c:365-384 | The substream is the announced bytes; the stream goes on behind them. |
| `MessageInput.DecodeBasicField` | nanopb/pb_decode.c:405-474 | One value is read exactly as the decoding function says. |
| `MessageInput.DecodePackedField` | nanopb/pb_decode.c:489-517 | A packed array is read to its end, within its capacity, or refused. |
| `MessageInput.DecodeStaticField` | nanopb/pb_decode.c:476-564 | The slot of a field is updated by its rule: set, marked present, appended, or chosen. |
| `MessageInput.DecodeInner` | nanopb/pb_decode.c:1027-1189 | The loop over a message, with its field cursor, is the decoding function. |
| `MessageInput.DecodeMessage` | nanopb/pb_decode.c:1219-1228 | A buffer decodes over a struct at its defaults. |
| `MessageOutput.OStream.EncodeVarint` | nanopb/pb_encode.c:616-632 | Fast path or two-word form, the canonical bytes are appended, or there was no room. |
| `MessageOutput.EncodeSubmessage` | nanopb/pb_encode.c:733-781 | The measuring pass and the writing pass agree: the length prefix is the size of what follows. |
| `MessageOutput.EncodeMessage` | nanopb/pb_encode.c:521-543 | The bytes appended are the encoding of the message; a failure means a value that does not fit its buffer, or no room. |
| `MessageOutput.EncodeField` | nanopb/pb_encode.c:427-478 | A field is written by its presence: absent and zero fields write nothing. |
| `MessageOutput.EncodeArray` | nanopb/pb_encode.c:137-249 | Numbers are packed behind one tag, other elements get one each, and an overlong array is refused. |
| `MessageOutput.PackedSize` | nanopb/pb_encode.c:162-184 | The size announced for a packed array is the size of what follows. |
| `MessageOutput.EncodeBasicField` | nanopb/pb_encode.c:371-413 | A tag and its value. |

## Left out

- Allocation and release of storage, task creation, logging, and the FreeRTOS, TinyUSB and WebSocket client calls:
  foreign code. Storage is taken to be ready.
- Time: poll delays, flush deadlines and read timeouts. `StartRead` and `FlushWrite` are one look each; the loops
  around them only wait.
- The reason detail of a STOPPED event, which repeats the raw fault status word of the stop.
- The STOPPED stack bytes are raw target memory, without shadow substitution, as in the code
  (sidp_session.cpp:1447); only READ_MEMORY is claimed to show the image.
- DebugSession.Session.HandleDisconnect: makes no claim about the program counter, because the code does not rewind it.
- DebugSession.Session.OpWriteMemory: which of the unhidden bytes of a failed write have landed is not known, to the session or here.
- DebugSession.Session.OpRun: what is left of a configuration when the target is lost is not claimed, except that every byte that differs from the image is covered.
- Protocol.SortBreakpoints: which status a list with several faults gets is not stated, only that one whose entries are all good is refused for want of slots.
- DebugSession.Session.OpWriteRegisters: after a failed write that named the program counter, with no step-over pending, where the core stands is unknown, so DETACH then claims only the physical value.
- TargetBackend.Target.ReadRegs: which registers a request selects, and placeholders for unreadable ones, belong to the backend; only the program counter entry is constrained.
- TargetBackend.Target.Attach: connect-under-reset and the identification registers are not modelled.
- Slip.Encoder.EncodeMessage: messages beyond one frame are excluded, as `enqueue` refuses them before they are encoded.
- MessageInput.DecodeInner: the struct is a sequence of values that each step replaces, not memory written through pointers; a union keeps no bytes of the member it held before.
- MessageLaws.SpellingDecodes: a spelling has records of at most one member of each oneof; a oneof that changes its member is covered over the decoding function (`MessageRepeats.FieldsIndependent`, `LastMemberChosen`).
- MessageInput.DecodeMessage: the fields of a schema are in tag order, as the generator writes them; the tag search of the code relies on it.
- MessageOutput.EncodeMessage: user callbacks, which could write a different size in the second pass, are not modelled.
- Of the protobuf codec: pointer fields, extensions, callbacks, required fields and their bookkeeping, default-value
  streams, fixed-count arrays, UTF-8 checks and double conversion.
- Management opcodes, log stream control, vector reads and the GDB stub: documented, but no code in the repository.
