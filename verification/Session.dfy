/** The debug session: one target, one peer, and the promises between them. */
module DebugSession {
  import opened Machine
  import opened Registers
  import opened TargetBackend
  import opened ShadowTable
  import opened Protocol

  /** What the last stop was, as STOPPED reports it. */
  datatype StopRecord = StopRecord(
    reason: StopReason, breakpointId: nat, watchpointAddress: nat, registersSize: nat, stackSize: nat, stackAddress: nat)

  const NO_RECORD := StopRecord(STOP_UNKNOWN, 0, 0, 0, 0, 0)

  const SNAPSHOT_CAPACITY: nat := MAX_FRAME_SIZE - HEADER_SIZE - STOPPED_EVENT_SIZE
  const STACK_SNAPSHOT_BELOW: nat := 64
  const STACK_SNAPSHOT_ABOVE: nat := 512

  /** How a stop is explained: its reason, the ids it reports, and the slot it hit (-1 for none). */
  datatype StopClass = StopClass(reason: StopReason, breakpointId: nat, watchpointAddress: nat, hit: int)

  /** The run in progress, as far as it explains the next stop. */
  datatype RunTracking = RunTracking(action: RunAction, runToActive: bool, runTo: nat, hwIds: seq<nat>)

  function TrackingOf(action: RunAction, runTo: nat, hwIds: seq<nat>): RunTracking {
    RunTracking(action, action == ToAddress, if action == ToAddress then runTo else 0, hwIds)
  }

  const NOT_RUNNING := RunTracking(Continue, false, 0, [])

  predicate HaltedFirst(c: Call, ok: bool) {
    c.HaltConfirmed? && c.ok == ok
  }

  predicate ConnectedFirst(c: Call) {
    c.Attached? && c.ok
  }

  /** The one call since `before` stored `data` at `address` for the peer. */
  ghost predicate StoredForPeer(before: seq<Call>, after: seq<Call>, address: nat, data: seq<byte>, ok: bool,
                                table: seq<SwBp>, image: Mem)
  {
    && |after| == |before| + 1 && before <= after
    && var c := after[|before|];
       c.PeerWrite? && c.address == address && c.data == data && c.ok == ok && c.table == table && c.image == image
  }

  /** Calls that are the business of one kind of request. */
  predicate Belongs(c: Call, opcode: Opcode) {
    || (c.PeerWrite? && opcode.OP_WRITE_MEMORY?)
    || (c.WasReset? && (opcode.OP_RESET_HALT? || opcode.OP_RESET_RUN?))
    || (c.Attached? && opcode.OP_ATTACH?)
    || (c.Resumed? && opcode.OP_RUN?)
    || (c.Detached? && (opcode.OP_DETACH? || opcode.OP_ATTACH?))
  }

  /** The calls since `t` are harmless, or those a request of this kind is for. */
  ghost predicate CallsBy(opcode: Opcode, t: seq<Call>, t': seq<Call>) {
    t <= t' && forall i :: |t| <= i < |t'| ==> Harmless(t'[i]) || Belongs(t'[i], opcode)
  }

  predicate BkptStop(stop: StopDetect) {
    !stop.comparatorMatch && stop.dfsr.bkpt
  }

  function Classify(stop: StopDetect, es: seq<SwBp>, run: RunTracking): (c: StopClass)
    ensures -1 <= c.hit < |es|
    ensures c.hit >= 0 ==> BkptStop(stop) && c.reason.STOP_BREAKPOINT? && c.hit == HitSlot(es, stop.pc) && c.breakpointId == es[c.hit].id
  {
    if stop.lockup then StopClass(STOP_LOCKUP, 0, 0, -1)
    else if stop.watchpointMatch || stop.dfsr.dwttrap then StopClass(STOP_WATCHPOINT, 0, stop.watchpointAddress, -1)
    else if run.runToActive && stop.comparatorMatch && stop.pc == run.runTo then StopClass(STOP_RUN_TO_ADDRESS, 0, 0, -1)
    else if BkptStop(stop) then
      var k := HitSlot(es, stop.pc);
      StopClass(STOP_BREAKPOINT, if k >= 0 then es[k].id else 0, 0, k)
    else if stop.comparatorMatch then
      StopClass(STOP_BREAKPOINT, if stop.comparatorIndex < |run.hwIds| then run.hwIds[stop.comparatorIndex] else 0, 0, -1)
    else if stop.fault then StopClass(STOP_FAULT, 0, 0, -1)
    else if stop.dfsr.vcatch then StopClass(STOP_VECTOR_CATCH, 0, 0, -1)
    else if stop.dfsr.halted && run.action == SingleStep then StopClass(STOP_SINGLE_STEP, 0, 0, -1)
    else StopClass(STOP_USER_HALT, 0, 0, -1)
  }

  /** The causes a stop may show, whatever else it shows. */
  predicate HasCause(reason: StopReason, stop: StopDetect, run: RunTracking) {
    match reason
    case STOP_LOCKUP => stop.lockup
    case STOP_WATCHPOINT => stop.watchpointMatch || stop.dfsr.dwttrap
    case STOP_RUN_TO_ADDRESS => run.runToActive && stop.comparatorMatch && stop.pc == run.runTo
    case STOP_BREAKPOINT => stop.comparatorMatch || stop.dfsr.bkpt
    case STOP_FAULT => stop.fault
    case STOP_VECTOR_CATCH => stop.dfsr.vcatch
    case STOP_SINGLE_STEP => stop.dfsr.halted && run.action == SingleStep
    case STOP_USER_HALT => true
    case _ => false
  }

  /** The stop shows a cause of its own, and is not just the end of a step. */
  ghost predicate ShowsCause(stop: StopDetect) {
    exists reason :: HasCause(reason, stop, NOT_RUNNING) && !reason.STOP_USER_HALT?
  }

  /** The causes in the order in which they are reported. */
  function Priority(reason: StopReason): nat {
    match reason
    case STOP_LOCKUP => 0
    case STOP_WATCHPOINT => 1
    case STOP_RUN_TO_ADDRESS => 2
    case STOP_BREAKPOINT => 3
    case STOP_FAULT => 4
    case STOP_VECTOR_CATCH => 5
    case STOP_SINGLE_STEP => 6
    case STOP_USER_HALT => 7
    case _ => 8
  }

  /** The reason reported is a cause the stop shows, and it shows none that comes before; the slot and the ids
      are those of that cause. */
  ghost predicate Explains(c: StopClass, stop: StopDetect, es: seq<SwBp>, run: RunTracking) {
    && HasCause(c.reason, stop, run)
    && (forall r :: HasCause(r, stop, run) ==> Priority(c.reason) <= Priority(r))
    && c.watchpointAddress == (if c.reason.STOP_WATCHPOINT? then stop.watchpointAddress else 0)
    && c.hit == (if c.reason.STOP_BREAKPOINT? && BkptStop(stop) then HitSlot(es, stop.pc) else -1)
    && c.breakpointId ==
       (if c.hit >= 0 then es[c.hit].id
        else if c.reason.STOP_BREAKPOINT? && stop.comparatorMatch && stop.comparatorIndex < |run.hwIds|
        then run.hwIds[stop.comparatorIndex] else 0)
  }

  lemma ClassExplains(stop: StopDetect, es: seq<SwBp>, run: RunTracking)
    ensures Explains(Classify(stop, es, run), stop, es, run)
  {
    hide HitSlot;
  }

  /** A stop has one explanation. */
  lemma OneExplanation(c: StopClass, d: StopClass, stop: StopDetect, es: seq<SwBp>, run: RunTracking)
    requires Explains(c, stop, es, run) && Explains(d, stop, es, run)
    ensures c == d
  {
    hide HitSlot;
    assert Priority(c.reason) == Priority(d.reason);
  }

  /** Nothing that is reported before a breakpoint. */
  predicate Undisputed(stop: StopDetect) {
    BkptStop(stop) && !stop.lockup && !stop.watchpointMatch && !stop.dfsr.dwttrap
  }

  /** A core that ran into the patch of slot `k` is explained by it exactly if its report is unmistaken; a
      mistaken one is put down to the neighbour two bytes below. */
  lemma StopAttributed(stop: StopDetect, es: seq<SwBp>, run: RunTracking, k: nat)
    requires TableOk(es) && RanInto(es, k, stop.pc) && Undisputed(stop)
    ensures var c := Classify(stop, es, run);
            && c.hit >= 0
            && es[c.hit].address == (if Unmistaken(es, k, stop.pc) then es[k].address else es[k].address - 2)
            && (Unmistaken(es, k, stop.pc) ==> c == StopClass(STOP_BREAKPOINT, es[k].id, 0, k))
  {
    hide HitSlot, Unmistaken;
    HitFound(es, k, stop.pc);
  }

  /** Where the program is for the peer: at the breakpoint that was hit, else where the core stands. */
  function PlaceOf(c: StopClass, stop: StopDetect, es: seq<SwBp>): int
    requires c.hit < |es|
  {
    if c.hit >= 0 then es[c.hit].address else stop.pc
  }

  /** A STOPPED event tells of a stop its cause with the ids and, if the registers come along, its place. */
  ghost predicate Tells(f: Frame, stop: StopDetect, es: seq<SwBp>, run: RunTracking) {
    var c := Classify(stop, es, run);
    && f.Stopped? && c.hit < |es|
    && f.reason == c.reason && f.breakpointId == c.breakpointId && f.watchpointAddress == c.watchpointAddress
    && var seen := Visible(Parse(f.registers), ARM_REG_PC); seen == -1 || seen == PlaceOf(c, stop, es)
  }

  /** A core that ran into the patch of a breakpoint is shown at that breakpoint and under its id, exactly when
      its report is unmistaken; otherwise it is shown at the neighbour two bytes below. */
  lemma HitTold(f: Frame, stop: StopDetect, es: seq<SwBp>, run: RunTracking, k: nat)
    requires TableOk(es) && Tells(f, stop, es, run) && RanInto(es, k, stop.pc) && Undisputed(stop)
    ensures var seen := Visible(Parse(f.registers), ARM_REG_PC);
            seen == -1 || seen == if Unmistaken(es, k, stop.pc) then es[k].address else es[k].address - 2
    ensures Unmistaken(es, k, stop.pc) ==> f.reason.STOP_BREAKPOINT? && f.breakpointId == es[k].id
  {
    hide Classify, Unmistaken, Visible, Parse, RanInto, Undisputed;
    StopAttributed(stop, es, run, k);
  }

  /** The ids a comparator match is reported under. */
  function IdsOf(hw: seq<BpEntry>): seq<nat> {
    seq(|hw|, i requires 0 <= i < |hw| => hw[i].id)
  }

  /** A region from which the stack at `sp` can be read. */
  predicate ReadableRam(r: Region, sp: int) {
    r.kind.RAM? && r.readable && r.start + r.length <= UINT64_MAX && r.start <= sp < r.start + r.length
  }

  /** What a stop shows of the stack at `sp`: from 64 bytes below it to 512 above, within the region, and no
      more than there is room for. */
  predicate ClippedStack(r: Region, sp: int, room: int, address: int, size: int) {
    && address == (if sp - 64 < r.start then r.start else sp - 64)
    && var end := if sp + 512 > r.start + r.length then r.start + r.length else sp + 512;
       size == if end - address > room then room else end - address
  }

  /** The calls up to the register read of a stop: a stack read may have followed it. */
  function UpToRegisters(t: seq<Call>): seq<Call> {
    if t != [] && Last(t).MemoryRead? then t[..|t| - 1] else t
  }

  /** The range of the stack a stop snapshot covers. */
  function StackRange(region: Region, sp: nat, room: nat): (r: (nat, nat))
    requires region.start <= sp < region.start + region.length
    ensures region.start <= r.0 && r.0 + r.1 <= region.start + region.length
    ensures r.1 <= room && r.0 + STACK_SNAPSHOT_BELOW >= sp && r.0 + r.1 <= sp + STACK_SNAPSHOT_ABOVE
    ensures r.0 <= sp && ClippedStack(region, sp, room, r.0, r.1)
  {
    var low := if sp > STACK_SNAPSHOT_BELOW then sp - STACK_SNAPSHOT_BELOW else 0;
    var high := sp + STACK_SNAPSHOT_ABOVE;
    var start := if low < region.start then region.start else low;
    var end := if high > region.start + region.length then region.start + region.length else high;
    (start, if end - start > room then room else end - start)
  }

  /** The image is what it was with the peer's bytes in place, and memory beyond them is what it was. */
  ghost predicate WriteLanded(addr: nat, data: seq<byte>, mem: Mem, img: Mem, mem': Mem, img': Mem) {
    && Same(img', Write(img, addr, data))
    && forall a: int :: !(addr <= a < addr + |data|) ==> mem'.At(a) == mem.At(a)
  }

  /** Some of the peer's bytes may be in the image, where no patch hides them; memory and image beyond the
      requested range are what they were. */
  ghost predicate WriteTore(es: seq<SwBp>, addr: nat, data: seq<byte>, mem: Mem, img: Mem, mem': Mem, img': Mem) {
    && Wrote(addr, data, false, es, img, img')
    && forall a: int :: !(addr <= a < addr + |data|) ==> mem'.At(a) == mem.At(a)
  }

  /** What a write of the peer comes to. On a running target the program may have moved on first. */
  ghost predicate ImageWritten(halted: bool, ok: bool, es: seq<SwBp>, addr: nat, data: seq<byte>,
                               mem: Mem, img: Mem, mem': Mem, img': Mem)
  {
    if halted then if ok then WriteLanded(addr, data, mem, img, mem', img') else WriteTore(es, addr, data, mem, img, mem', img')
    else exists m, i :: ProgramRan(es, mem, img, m, i) &&
           if ok then WriteLanded(addr, data, m, i, mem', img') else WriteTore(es, addr, data, m, i, mem', img')
  }

  /** The image of every instruction `sw` asks to patch is what it was. */
  ghost predicate SitesSpared(sw: seq<BpEntry>, img: Mem, img': Mem) {
    forall k, a: int :: 0 <= k < |sw| && sw[k].address <= a < sw[k].address + sw[k].size ==> img'.At(a) == img.At(a)
  }

  lemma SparedAtSites(es: seq<SwBp>, sw: seq<BpEntry>, img: Mem, img': Mem)
    requires SameSites(es, sw) && Spared(es, img, img')
    ensures SitesSpared(sw, img, img')
  {
    forall k, a: int | 0 <= k < |sw| && sw[k].address <= a < sw[k].address + sw[k].size ensures img'.At(a) == img.At(a) {
      assert Owns(es[k], a);
    }
  }

  lemma SitesSparedOn(sw: seq<BpEntry>, img: Mem, mid: Mem, img': Mem)
    requires SitesSpared(sw, img, mid) && SitesSpared(sw, mid, img')
    ensures SitesSpared(sw, img, img')
  {
  }

  lemma SitesSparedNothing(sw: seq<BpEntry>, img: Mem)
    ensures SitesSpared(sw, img, img)
  {
  }

  /** `c` lets the core execute the whole original instruction at `address`, exactly if that is a halfword, or
      no requested breakpoint starts in its second half. */
  ghost predicate WholeStep(c: Call, address: nat, sw: seq<BpEntry>) {
    && c.Resumed?
    && var size := InstructionSize(c.at.image, address);
       (forall a: int :: address <= a < address + size ==> c.at.mem.At(a) == c.at.image.At(a)) <==>
         size == 2 || forall k :: 0 <= k < |sw| ==> sw[k].address != address + 2
  }

  /** Slot `skip` is the one at `address`, or -1 if there is none. */
  predicate OnlyAt(es: seq<SwBp>, skip: int, address: nat) {
    if skip == -1 then forall j :: 0 <= j < |es| ==> es[j].address != address
    else 0 <= skip < |es| && es[skip].address == address
  }

  /** When the internal step of a RUN executes the original instruction as a whole. */
  lemma StepsWhole(c: Call, es: seq<SwBp>, skip: int, address: nat, sw: seq<BpEntry>)
    requires c.Resumed? && TableOk(es) && SameSites(es, sw) && Genuine(sw, c.at.image) && address % 2 == 0
    requires OnlyAt(es, skip, address) && ArmedExcept(es, skip, c.at.mem, c.at.image)
    ensures WholeStep(c, address, sw)
  {
    hide ArmedExcept, Read;
    var size := InstructionSize(c.at.image, address);
    StepsOriginal(es, skip, address, size, c.at.mem, c.at.image);
    forall k | 0 <= k < |es| && k != skip
      ensures address <= es[k].address < address + size <==> size == 4 && sw[k].address == address + 2
    {
      EvenSite(es, k);
      if skip >= 0 {
        assert Disjoint(es[if k < skip then k else skip], es[if k < skip then skip else k]);
      }
    }
  }

  /** No armed patch was disarmed. */
  ghost predicate PatchesKept(es: seq<SwBp>, mem: Mem, mem': Mem) {
    forall k, a: int :: 0 <= k < |es| && ArmedAt(es[k], a, mem) ==> ArmedAt(es[k], a, mem')
  }

  lemma PeerWroteImage(es: seq<SwBp>, addr: nat, data: seq<byte>, stored: seq<byte>, ok: bool,
                       mem: Mem, img: Mem, mem': Mem, img': Mem, halted: bool)
    requires |stored| == |data| && PeerWrote(addr, stored, data, es, ok, mem, img, mem', img', halted)
    requires Tracks(es, mem, img)
    requires forall i :: 0 <= i < |data| && !Covered(es, addr + i) ==> stored[i] == data[i]
    ensures ImageWritten(halted, ok, es, addr, data, mem, img, mem', img')
  {
    if halted {
      StoredMeans(es, addr, data, stored, ok, mem, img, mem', img');
    } else {
      var m, i :| ProgramRan(es, mem, img, m, i) && PeerStored(addr, stored, data, es, ok, m, i, mem', img');
      ProgramRanTracks(es, mem, img, m, i);
      StoredMeans(es, addr, data, stored, ok, m, i, mem', img');
    }
  }

  lemma StoredMeans(es: seq<SwBp>, addr: nat, data: seq<byte>, stored: seq<byte>, ok: bool,
                    mem: Mem, img: Mem, mem': Mem, img': Mem)
    requires |stored| == |data| && PeerStored(addr, stored, data, es, ok, mem, img, mem', img') && Tracks(es, mem, img)
    requires forall i :: 0 <= i < |data| && !Covered(es, addr + i) ==> stored[i] == data[i]
    ensures if ok then WriteLanded(addr, data, mem, img, mem', img') else WriteTore(es, addr, data, mem, img, mem', img')
  {
    TornReaches(addr, stored, data, es, mem, img, mem', img', ok);
  }

  /** A hundred polls in a row found the core running. */
  ghost predicate Exhausted(t: seq<Call>, t': seq<Call>) {
    exists n :: |t| <= n && Waited(t', n)
  }

  predicate Waited(t: seq<Call>, n: nat) {
    n + 100 <= |t| && forall i :: n <= i < n + 100 ==> t[i].Polled? && t[i].ok && !t[i].halted
  }

  lemma ExhaustedOn(t: seq<Call>, mid: seq<Call>, end: seq<Call>, t': seq<Call>)
    requires t <= mid <= end <= t' && Exhausted(mid, end)
    ensures Exhausted(t, t')
  {
    var n :| |mid| <= n && Waited(end, n);
    assert Waited(t', n);
  }

  /** How an internal step-over ended. */
  datatype StepResult = NotNeeded | Stepped | StoppedStep | StoppedReal | Failed | FailedLost

  /** The core was let go exactly once, for the instruction at `address`, under `config`. */
  ghost predicate SteppedOnce(before: seq<Call>, after: seq<Call>, address: nat, config: RunConfig) {
    && |after| == |before| + 1 && before <= after
    && after[|before|].Resumed?
    && after[|before|].purpose == StepOver(address)
    && after[|before|].config == config
  }

  /** What one successful RUN does to the core: the instruction under a pending breakpoint, if there is
      one, and then the run itself unless that instruction was all of it. */
  ghost predicate Launched(before: seq<Call>, after: seq<Call>, pending: bool, address: nat, action: RunAction, runTo: nat,
                           config: RunConfig)
  {
    && before <= after
    && (forall i :: |before| <= i < |after| ==> after[i].Resumed? && after[i].config == config)
    && (pending ==>
          && |before| + 1 <= |after| <= |before| + 2 && after[|before|].purpose == StepOver(address)
          && (|after| == |before| + 2 ==> action != SingleStep && after[|before| + 1].purpose == Run(action, runTo)))
    && (!pending ==> |after| == |before| + 1 && after[|before|].purpose == Run(action, runTo))
  }

  /** The core was let go as request `r` asks: under the configuration it lists and, but for the instruction
      under a breakpoint, as its action says: 1 to continue, 2 to execute one instruction, 3 to run to an address. */
  ghost predicate AsAsked(c: Call, r: RunRequest) {
    && c.Resumed? && Mirrors(c.config, r)
    && (c.purpose.Run? ==>
          && (c.purpose.action.Continue? <==> r.action == 1) && (c.purpose.action.SingleStep? <==> r.action == 2)
          && (c.purpose.action.ToAddress? <==> r.action == 3) && c.purpose.runTo == r.runTo)
  }

  /** What the session follows while the core runs is what was asked for. */
  ghost predicate FollowsRun(run: RunTracking, r: RunRequest) {
    && (run.action.Continue? <==> r.action == 1) && (run.action.SingleStep? <==> r.action == 2)
    && (run.runToActive <==> r.action == 3) && run.runTo == (if r.action == 3 then r.runTo else 0)
    && exists hw: seq<BpEntry> :: Picked(r.breakpoints, 1, hw) && |run.hwIds| == |hw| && forall i :: 0 <= i < |hw| ==> run.hwIds[i] == hw[i].id
  }

  lemma LaunchedAsAsked(before: seq<Call>, after: seq<Call>, pending: bool, address: nat, r: RunRequest)
    requires Launched(before, after, pending, address, RunActionOf(r.action), r.runTo, RequestedConfig(r))
    requires r.action == 1 || r.action == 2 || r.action == 3
    ensures forall i :: |before| <= i < |after| ==> AsAsked(after[i], r)
    ensures r.action == 2 ==> |after| == |before| + 1
    ensures !pending ==> |after| == |before| + 1 && after[|before|].purpose.Run?
    ensures !pending && r.action == 2 ==> after[|before|].purpose == Run(SingleStep, r.runTo)
  {
    hide Mirrors, SoftwareOf, HardwareOf, WatchpointsOf;
    ConfigMirrors(r);
    forall i | |before| <= i < |after| ensures AsAsked(after[i], r) {
      assert after[i].config == RequestedConfig(r);
      assert i == |before| || i == |before| + 1;
    }
  }

  lemma TrackingFollows(r: RunRequest)
    requires r.action == 1 || r.action == 2 || r.action == 3
    ensures FollowsRun(TrackingOf(RunActionOf(r.action), r.runTo, IdsOf(HardwareOf(r.breakpoints))), r)
  {
    hide Picked;
    BreakpointsPicked(r.breakpoints);
  }

  /** A response with this body. */
  predicate Bears(f: Frame, body: Body) {
    f.Response? && f.body == body
  }

  /** The requests a target state does not admit: an unknown one never; a lost target is only asked for its state; a
      detached one for that or to attach; an attached one not to attach again; and a running one neither for its
      registers nor to run. */
  predicate Barred(state: TargetState, opcode: Opcode) {
    || opcode.OP_UNKNOWN?
    || (state.LOST? && !opcode.OP_GET_STATE?)
    || (state.DETACHED? && !opcode.OP_GET_STATE? && !opcode.OP_ATTACH?)
    || ((state.HALTED? || state.RUNNING?) && opcode.OP_ATTACH?)
    || (state.RUNNING? && (opcode.OP_READ_REGISTERS? || opcode.OP_WRITE_REGISTERS? || opcode.OP_RUN?))
  }

  /** The status that says so. */
  predicate BarredAs(state: TargetState, opcode: Opcode, st: Status) {
    if state.LOST? then st.STATUS_TARGET_LOST?
    else if opcode.OP_UNKNOWN? then st.STATUS_UNSUPPORTED?
    else if state.DETACHED? then st.STATUS_ERROR?
    else if opcode.OP_ATTACH? then st.STATUS_BUSY?
    else st.STATUS_TARGET_RUNNING?
  }

  // ---- a run, turn by turn ----------------------------------------------------------------------

  /** What can be seen of a session between two inputs. */
  datatype Moment = Moment(trace: seq<Call>, image: Mem, frames: seq<Frame>, dead: bool, state: TargetState)

  /** WRITE_MEMORY with this payload and this answer: one backend write, of exactly the bytes asked for, or none. */
  ghost predicate StoresAsked(payload: Payload, st: Status, before: seq<Call>, after: seq<Call>) {
    || (after == before && !st.STATUS_OK?)
    || (payload.WriteMemoryRequest? && exists table, image ::
          StoredForPeer(before, after, payload.address, payload.data, st.STATUS_OK?, table, image))
  }

  /** The answer to a request comes first, and then the events it causes; only the wrap of the stop generation
      puts the loss it means before the answer. */
  ghost predicate InTurn(opcode: Opcode, id: nat, st: Status, before: seq<Frame>, after: seq<Frame>, dead: bool) {
    || Answered(before, after, opcode, id, st, dead)
    || (Halts(opcode) && (dead || after == before + WrapFrames(opcode, id, st)))
  }

  /** What one input may do to the calls, the frames and the program image. */
  ghost predicate TurnTaken(x: Input, a: Moment, b: Moment) {
    && Accounted(a.trace, b.trace, a.image, b.image)
    && a.frames <= b.frames && (a.dead ==> b.dead && b.frames == a.frames)
    && match x
       case Tick =>
         && Quiet(a.trace, b.trace) && EventsSince(a.frames, b.frames)
         && if a.dead || !a.state.RUNNING? then b.trace == a.trace && b.state == a.state else Observed(a, b)
       case PeerLost => CallsBy(OP_DETACH, a.trace, b.trace) && b.frames == a.frames && b.dead
       case Request(m) =>
         if a.dead || !Answerable(m) then b.trace == a.trace && b.frames == a.frames
         else exists st :: AnswerTaken(m, st, a, b)
  }

  /** What a request answered with `st` may do. */
  ghost predicate AnswerTaken(m: Message, st: Status, a: Moment, b: Moment) {
    && InTurn(m.opcode, m.id, st, a.frames, b.frames, b.dead)
    && CallsBy(m.opcode, a.trace, b.trace)
    && (m.opcode.OP_WRITE_MEMORY? ==> StoresAsked(m.payload, st, a.trace, b.trace))
    && (m.opcode.OP_READ_MEMORY? ==> ReadsImage(m.payload, st, a, b))
    && (Barred(a.state, m.opcode) ==> BarredAs(a.state, m.opcode, st) && b.trace == a.trace && b.state == a.state)
  }

  /** The loss of the target was announced, and nothing else. */
  predicate LossSent(before: seq<Frame>, after: seq<Frame>) {
    |after| == |before| + 1 && before <= after && after[|before|].TargetLost?
  }

  /** A running target is looked at: the first call says whether it has stopped, and a stop is reported. */
  ghost predicate Observed(a: Moment, b: Moment) {
    && |b.trace| > |a.trace| && b.trace[|a.trace|].Polled?
    && var c := b.trace[|a.trace|];
       && (if c.halted then b.state.HALTED? || b.state.LOST? else if c.ok then b.state.RUNNING? else b.state.LOST?)
       && (b.state.HALTED? && !b.dead ==> |b.frames| == |a.frames| + 1 && Last(b.frames).Stopped?)
       && (b.state.LOST? && !b.dead ==> LossSent(a.frames, b.frames))
  }

  /** What READ_MEMORY answers is the program image at that moment. */
  ghost predicate ReadsImage(p: Payload, st: Status, a: Moment, b: Moment) {
    st.STATUS_OK? && |b.frames| > |a.frames| ==>
      p.ReadMemoryRequest? && Bears(b.frames[|a.frames|], MemoryBody(p.address, Read(b.image, p.address, p.length)))
  }

  /** A run passes through `moments`, one more than there are inputs. */
  ghost predicate Turns(inputs: seq<Input>, moments: seq<Moment>) {
    && |moments| == |inputs| + 1
    && forall n :: 0 <= n < |inputs| ==> TurnTaken(inputs[n], moments[n], moments[n + 1])
  }

  /** The request that asks for a load of the target, or for exactly this write. */
  predicate AskedFor(c: Call, x: Input) {
    && x.Request?
    && match c
       case Attached(_, _, _) => x.m.opcode.OP_ATTACH?
       case WasReset(_, _, _) => x.m.opcode.OP_RESET_HALT? || x.m.opcode.OP_RESET_RUN?
       case PeerWrite(address, data, _, _, _, _) =>
         x.m.opcode.OP_WRITE_MEMORY? && x.m.payload.WriteMemoryRequest? && x.m.payload.address == address && x.m.payload.data == data
       case _ => false
  }

  /** Why byte `addr` of the program image may differ after input `x`: the input asked to load the target
      anew, or to write the byte, and if a patch hides it the write succeeded; or the program ran, and no
      breakpoint owned the byte. */
  ghost predicate ImageCause(x: Input, a: Moment, b: Moment, addr: int) {
    exists i :: |a.trace| <= i < |b.trace| &&
      (RanOver(b.trace, i, addr) || (Rewrites(b.trace[i], addr) && AskedFor(b.trace[i], x)))
  }

  lemma TurnHasCause(x: Input, a: Moment, b: Moment, addr: int)
    requires TurnTaken(x, a, b) && b.image.At(addr) != a.image.At(addr)
    ensures ImageCause(x, a, b, addr)
  {
    hide HaltKnown, Answered, Owned, Covered, WrapFrames, EventsSince;
    var i :| |a.trace| <= i < |b.trace| && (Rewrites(b.trace[i], addr) || RanOver(b.trace, i, addr));
    assert RanOver(b.trace, i, addr) || AskedFor(b.trace[i], x);
  }

  /** Over a whole run of requests, polls and disconnects, whatever fails on the way, a byte of the program
      image changes only because the peer wrote it, because the target was loaded anew, or because the program
      itself ran over it where no breakpoint is remembered. Patching, restoring, stepping over and giving back
      change nothing. */
  lemma {:induction false} ImageOverRun(inputs: seq<Input>, moments: seq<Moment>, addr: int)
    requires Turns(inputs, moments)
    requires moments[|inputs|].image.At(addr) != moments[0].image.At(addr)
    ensures exists n :: 0 <= n < |inputs| && ImageCause(inputs[n], moments[n], moments[n + 1], addr)
    decreases |inputs|
  {
    hide TurnTaken, ImageCause;
    var n := |inputs| - 1;
    if moments[n + 1].image.At(addr) != moments[n].image.At(addr) {
      TurnHasCause(inputs[n], moments[n], moments[n + 1], addr);
    } else {
      ImageOverRun(inputs[..n], moments[..n + 1], addr);
      var k :| 0 <= k < n && ImageCause(inputs[..n][k], moments[..n + 1][k], moments[..n + 1][k + 1], addr);
      assert ImageCause(inputs[k], moments[k], moments[k + 1], addr);
    }
  }

  class Session {
    const target: Target
    const bps: Table
    const sink: Sink
    const scratch: array<byte>
    const pendingRegisters: array<byte>

    var state: TargetState
    var stopId: u32
    var stopReported: bool
    var attached: bool
    var transportDead: bool

    var caps: Caps
    var catchSupported: set<nat>
    var hwLimit: nat
    var wpLimit: nat
    var maxTransfer: nat
    var regions: seq<Region>

    var run: RunTracking
    var stepOverPending: bool
    var stepOverAddress: nat
    var pending: StopRecord

    /** The program counter as the peer must see it, and whether it is certain: a failed peer write
        may or may not have moved it. */
    ghost var logicalPc: nat
    ghost var pcCertain: bool
    /** Frames sent before the current attachment. */
    ghost var mark: nat
    /** The stop generation has wrapped since the attachment. */
    ghost var wrapped: bool

    ghost predicate Wired() {
      && bps.target == target
      && scratch.Length == MAX_FRAME_SIZE
      && pendingRegisters.Length == MAX_FRAME_SIZE
      && scratch != pendingRegisters
    }

    /** The order of STOPPED events holds as long as the generation has not wrapped. */
    ghost predicate Ordered()
      reads this`wrapped, this`mark, this`stopId, sink
    {
      mark <= |sink.frames| && (!wrapped ==> StopsOrdered(sink.frames, mark, stopId))
    }

    /** The current stop generation has not been reported yet. */
    ghost predicate Unreported()
      reads this`wrapped, this`mark, this`stopId, sink
    {
      !wrapped ==> StopsBelow(sink.frames, mark, stopId)
    }

    /** Where the session believes the program is. */
    ghost function ShownPc(): nat
      reads this, target
    {
      if stepOverPending then stepOverAddress else target.pc
    }

    /** A peer that can still be told knows that the target is lost. */
    ghost predicate LossTold()
      reads this`state, this`transportDead, this`mark, sink
    {
      state.LOST? && !transportDead ==> exists i :: mark <= i < |sink.frames| && sink.frames[i].TargetLost?
    }

    /** Holds at every step, whatever the target is doing. */
    ghost predicate Sound()
      reads this, target, bps, bps.slots, sink
    {
      && Wired() && bps.Valid() && Ordered() && LossTold()
      && (!attached ==> bps.count == 0)
      && (stepOverPending ==> stepOverAddress <= UINT32_MAX && stepOverAddress % 2 == 0)
      && maxTransfer <= MAX_MEMORY_TRANSFER
      && pending.registersSize + pending.stackSize <= SNAPSHOT_CAPACITY
    }

    /** Holds between the steps of a handler. */
    ghost predicate Core()
      reads this, target, bps, bps.slots, sink
    {
      && Sound()
      && (state.HALTED? ==> target.halted)
      && (state.HALTED? || state.RUNNING? ==> attached)
      && (state.HALTED? && pcCertain ==> logicalPc == ShownPc())
    }

    /** Holds between handlers. */
    ghost predicate Valid()
      reads this, target, bps, bps.slots, sink
    {
      && Core()
      && (attached && state.DETACHED? ==> transportDead)
      && (state.HALTED? && !transportDead ==> stopReported)
    }

    /** A captured stop that is still to be reported. */
    ghost predicate Held()
      reads this, sink
    {
      state.HALTED? && !stopReported ==> stopId > 0 && Unreported()
    }

    lemma Grounded()
      requires Sound() || Core() || Valid()
      ensures Sound() && Ordered() && Wired() && bps.Valid()
    {
    }

    lemma Connected()
      requires Core() && (state.HALTED? || state.RUNNING?)
      ensures attached && Ordered() && Wired() && bps.Valid()
    {
    }

    constructor (target: Target, sink: Sink)
      requires target.Valid() && Same(target.mem, target.image)
      ensures Valid() && fresh(bps) && fresh(bps.slots) && fresh(scratch) && fresh(pendingRegisters)
      ensures this.target == target && this.sink == sink
      ensures state.DETACHED? && !attached && !transportDead && bps.Entries() == []
    {
      this.target := target;
      this.sink := sink;
      bps := new Table(target);
      scratch := new byte[MAX_FRAME_SIZE](i => 0);
      pendingRegisters := new byte[MAX_FRAME_SIZE](i => 0);
      state, stopId, stopReported, attached, transportDead := DETACHED, 0, false, false, false;
      caps := Caps(false, false, false, false, false, false, false, false, false);
      catchSupported, hwLimit, wpLimit, maxTransfer, regions := {}, 0, 0, DEFAULT_MAX_MEMORY_TRANSFER, [];
      run, stepOverPending, stepOverAddress, pending := NOT_RUNNING, false, 0, NO_RECORD;
      logicalPc, pcCertain, mark, wrapped := 0, true, |sink.frames|, false;
    }

    // ---- frames ---------------------------------------------------------------------------

    /** Hands a frame to the transport; a rejection latches the transport dead. */
    method FinishFrame(f: Frame) returns (ok: bool)
      requires FrameSize(f) <= MAX_FRAME_SIZE
      modifies this`transportDead, sink
      ensures old(transportDead) ==> !ok && transportDead && sink.frames == old(sink.frames)
      ensures !old(transportDead) ==> ok == !transportDead
      ensures !old(transportDead) ==> sink.frames == if ok then old(sink.frames) + [f] else old(sink.frames)
      ensures old(Ordered()) && !f.Stopped? ==> Ordered()
      ensures old(Unreported()) && !f.Stopped? ==> Unreported()
      ensures old(LossTold()) ==> LossTold()
      ensures f.TargetLost? && mark <= |old(sink.frames)| ==> LossTold()
    {
      hide StopsOrdered, StopsBelow;
      if transportDead {
        return false;
      }
      if !f.Stopped? {
        StopsOrderedMore(sink.frames, f, mark, stopId);
      }
      ghost var before := sink.frames;
      ok := sink.Send(f);
      assert forall i :: 0 <= i < |before| ==> sink.frames[i] == before[i];
      if !ok {
        transportDead := true;
      } else {
        assert sink.frames[|before|] == f;
      }
    }

    method SendResponse(opcode: Opcode, id: nat, status: Status)
      requires Ordered()
      modifies this`transportDead, sink
      ensures Ordered() && (old(transportDead) ==> transportDead) && (old(Unreported()) ==> Unreported())
      ensures (old(Valid()) ==> Valid()) && (old(Core()) ==> Core()) && (old(Sound()) ==> Sound())
      ensures sink.frames == if transportDead then old(sink.frames) else old(sink.frames) + [Response(opcode, id, status, NoBody)]
    {
      var _ := FinishFrame(Response(opcode, id, status, NoBody));
    }

    method EnterLost(reason: LostReason)
      requires Ordered()
      modifies this`state, this`transportDead, sink
      ensures Ordered() && state.LOST? && (old(transportDead) ==> transportDead)
      ensures (old(Valid()) ==> Valid()) && (old(Core()) ==> Core()) && (old(Sound()) ==> Sound() && Valid())
      ensures sink.frames == if transportDead || old(state).LOST? then old(sink.frames) else old(sink.frames) + [TargetLost(reason)]
      ensures old(state).LOST? ==> transportDead == old(transportDead)
    {
      if state.LOST? {
        return;
      }
      state := LOST;
      var _ := FinishFrame(TargetLost(reason));
    }

    /** How the failure `e` of a call is answered: a protocol fault loses the target, a timeout says so, and anything
        else is answered as the request defines it. */
    ghost predicate FailedAs(e: Err, fallback: Status, st: Status, was: TargetState)
      reads this`state
    {
      && !e.OK? && st == (if e.FAIL? then STATUS_TARGET_LOST else if e.TIMEOUT? then STATUS_TIMEOUT else fallback)
      && state == if e.FAIL? then LOST else was
    }

    method SendBackendFailure(opcode: Opcode, id: nat, result: Err, fallback: Status) returns (st: Status)
      requires Ordered() && !result.OK? && !fallback.STATUS_OK? && !transportDead
      modifies this`state, this`transportDead, sink
      ensures Ordered() && !st.STATUS_OK? && (old(Valid()) ==> Valid()) && (old(Core()) ==> Core())
      ensures Answered(old(sink.frames), sink.frames, opcode, id, st, transportDead)
      ensures FailedAs(result, fallback, st, old(state))
    {
      hide StopsOrdered, StopsBelow;
      if result.FAIL? {
        st := STATUS_TARGET_LOST;
        SendResponse(opcode, id, st);
        EnterLost(LOST_SWD_FAULT);
        return;
      }
      st := if result.TIMEOUT? then STATUS_TIMEOUT else fallback;
      SendResponse(opcode, id, st);
    }

    // ---- confirming a halt -----------------------------------------------------------------

    method HaltNow() returns (e: Err, stop: StopDetect)
      requires Core()
      modifies target`mem, target`image, target`pc, target`trace, target`answer, target`halted, target`resumes
      ensures Core() && (e.OK? ==> target.halted && stop.pc == target.pc) && (old(Held()) ==> Held())
      ensures Quiet(old(target.trace), target.trace) && target.resumes == old(target.resumes)
      ensures old(target.halted) ==>
                target.halted && target.mem == old(target.mem) && target.image == old(target.image) && target.pc == old(target.pc)
      ensures !old(target.halted) ==>
                ProgramRan(bps.Entries(), old(target.mem), old(target.image), target.mem, target.image)
      ensures target.trace == old(target.trace) + [HaltConfirmed(e.OK?, stop.halted, bps.Entries(), target.image)]
      ensures Spared(bps.Entries(), old(target.image), target.image)
      ensures target.answer == e
    {
      hide TableOk, Tracks, Disciplined, HaltKnown, Resumes, ImageAfter, StopsOrdered, StopsBelow, ProgramRan;
      ghost var m, i, was := target.mem, target.image, target.halted;
      e, stop := target.Halt(bps.Entries());
      RestedOrRan(was, bps.Entries(), m, i, target.mem, target.image);
    }

    method PollNow() returns (e: Err, stop: StopDetect)
      requires Core()
      modifies target`mem, target`image, target`pc, target`trace, target`answer, target`halted, target`resumes
      ensures Core() && (e.OK? && stop.halted ==> target.halted && stop.pc == target.pc) && (old(Held()) ==> Held())
      ensures Quiet(old(target.trace), target.trace) && target.resumes == old(target.resumes)
      ensures old(target.halted) ==> target.halted && target.image == old(target.image)
      ensures !old(target.halted) ==>
                ProgramRan(bps.Entries(), old(target.mem), old(target.image), target.mem, target.image)
      ensures target.trace == old(target.trace) + [Polled(e.OK?, e.OK? && stop.halted, bps.Entries(), target.image)]
      ensures Spared(bps.Entries(), old(target.image), target.image)
      ensures target.answer == e
    {
      hide TableOk, Tracks, Disciplined, HaltKnown, Resumes, ImageAfter, StopsOrdered, StopsBelow, ProgramRan;
      ghost var m, i, was := target.mem, target.image, target.halted;
      e, stop := target.PollHalted(bps.Entries());
      RestedOrRan(was, bps.Entries(), m, i, target.mem, target.image);
    }

    // ---- the stop pipeline -----------------------------------------------------------------

    /** Everything the session has not been told to touch. */
    twostate predicate TableKept()
      reads this, target, bps, bps.slots
    {
      && bps.count == old(bps.count) && bps.slots[..] == old(bps.slots[..])
      && target.mem == old(target.mem) && target.image == old(target.image) && target.pc == old(target.pc)
      && target.hw == old(target.hw) && target.wps == old(target.wps) && target.catchMask == old(target.catchMask)
    }

    /** Enters HALTED under a new generation and captures the snapshot. When the generation wraps
        the target is declared lost instead. */
    method EnterHalted(stop: StopDetect)
      requires Core() && attached && target.halted && stop.pc == target.pc
      modifies this`state, this`stopId, this`stopReported, this`pending, this`run, this`stepOverPending,
               this`stepOverAddress, this`logicalPc, this`pcCertain, this`wrapped, this`transportDead, sink,
               target`mem, target`image, target`pc, target`trace, target`answer, target`halted, target`resumes, pendingRegisters
      ensures Core() && Held() && target.halted && TableKept()
      ensures Quiet(old(target.trace), target.trace) && target.resumes == old(target.resumes)
      ensures old(transportDead) ==> transportDead && sink.frames == old(sink.frames)
      ensures old(state).LOST? ==> SameReport() && state.LOST?
      ensures !old(state).LOST? && old(stopId) == UINT32_MAX ==>
                && state.LOST? && stopId == 0 && wrapped && pending == old(pending)
                && sink.frames == if transportDead then old(sink.frames) else old(sink.frames) + [TargetLost(LOST_TIMEOUT)]
      ensures !old(state).LOST? && old(stopId) < UINT32_MAX ==>
                && state.HALTED? && stopId == old(stopId) + 1 && !stopReported
                && sink.frames == old(sink.frames) && transportDead == old(transportDead) && wrapped == old(wrapped)
                && Unreported() && ExplainedBy(Classify(stop, bps.Entries(), old(run)))
                && PendingShows(logicalPc)
      ensures !old(state).LOST? ==> LocatedBy(Classify(stop, bps.Entries(), old(run)).hit)
      ensures !old(state).LOST? && old(stopId) < UINT32_MAX ==> PendingSnapped()
      ensures !old(state).LOST? && old(stopId) < UINT32_MAX ==> run == TrackingOf(Continue, 0, old(run).hwIds)
      ensures !old(state).LOST? ==> HitsLocated(stop)
      ensures !old(state).LOST? && old(stopId) < UINT32_MAX ==> HitsNamed(stop) && Keeps(stop, old(run))
    {
      hide Keeps, TableOk, Tracks, Disciplined, HaltKnown, Resumes, ImageAfter, StopsOrdered, StopsBelow, Parse, Visible, First, Classify, HitSlot, LocatedBy, ExplainedBy, PendingShows, HitsLocated, HitsNamed, PendingSnapped, Unreported;
      if !state.LOST? {
        ghost var tracking := run;
        StopHere(stop);
        HitsFollow(stop, tracking);
        if state.HALTED? {
          KeptFollows(stop, tracking);
        }
      }
    }

    /** The same, for a target that is not lost. */
    method StopHere(stop: StopDetect)
      requires !state.LOST? && Core() && attached && target.halted && stop.pc == target.pc
      modifies this`state, this`stopId, this`stopReported, this`pending, this`run, this`stepOverPending,
               this`stepOverAddress, this`logicalPc, this`pcCertain, this`wrapped, this`transportDead, sink,
               target`mem, target`image, target`pc, target`trace, target`answer, target`halted, target`resumes, pendingRegisters
      ensures Core() && Held() && target.halted && TableKept()
      ensures Quiet(old(target.trace), target.trace) && target.resumes == old(target.resumes)
      ensures old(transportDead) ==> transportDead && sink.frames == old(sink.frames)
      ensures old(stopId) == UINT32_MAX ==>
                && state.LOST? && stopId == 0 && wrapped && pending == old(pending)
                && sink.frames == if transportDead then old(sink.frames) else old(sink.frames) + [TargetLost(LOST_TIMEOUT)]
      ensures old(stopId) < UINT32_MAX ==>
                && state.HALTED? && stopId == old(stopId) + 1 && !stopReported
                && sink.frames == old(sink.frames) && transportDead == old(transportDead) && wrapped == old(wrapped)
                && Unreported() && ExplainedBy(Classify(stop, bps.Entries(), old(run)))
                && PendingShows(logicalPc)
      ensures LocatedBy(Classify(stop, bps.Entries(), old(run)).hit)
      ensures old(stopId) < UINT32_MAX ==> PendingSnapped()
      ensures old(stopId) < UINT32_MAX ==> run == TrackingOf(Continue, 0, old(run).hwIds)
    {
      hide TableOk, Tracks, Disciplined, HaltKnown, Resumes, ImageAfter, StopsOrdered, StopsBelow, Parse, Visible, First, Shown, Classify, HitSlot,
           Unreported, Ordered, LossTold, SnapshotIs;
      var c := LocateStop(stop);
      ghost var es := bps.Entries();
      if stopId == UINT32_MAX {
        WrapGeneration();
      } else {
        NewGeneration(c);
        assert bps.Entries() == es;
      }
    }

    /** Works out why the core stopped, and where. */
    method LocateStop(stop: StopDetect) returns (c: StopClass)
      requires Core() && stop.pc == target.pc
      modifies this`stepOverPending, this`stepOverAddress, this`logicalPc, this`pcCertain
      ensures Core() && c == Classify(stop, bps.Entries(), run) && LocatedBy(c.hit)
    {
      hide Tracks, Disciplined, HaltKnown, Resumes, ImageAfter, HitSlot, Explains;
      var k := -1;
      if BkptStop(stop) {
        k := bps.FindByHaltPc(stop.pc);
      }
      c := Explain(stop, k);
      ClassExplains(stop, bps.Entries(), run);
      OneExplanation(c, Classify(stop, bps.Entries(), run), stop, bps.Entries(), run);
      Locate(c.hit, stop.pc);
    }

    twostate predicate SameReport()
      reads this, sink
    {
      && sink.frames == old(sink.frames) && transportDead == old(transportDead)
      && stepOverPending == old(stepOverPending) && stepOverAddress == old(stepOverAddress)
      && pending == old(pending) && stopId == old(stopId) && logicalPc == old(logicalPc) && wrapped == old(wrapped)
      && stopReported == old(stopReported) && pcCertain == old(pcCertain)
    }

    /** The step-over and the logical program counter follow from the slot that was hit. */
    ghost predicate LocatedBy(hit: int)
      requires bps.count <= bps.slots.Length && hit < bps.count
      reads this, target, bps, bps.slots
    {
      && stepOverPending == (hit >= 0)
      && stepOverAddress == (if hit >= 0 then bps.Entries()[hit].address else 0)
      && (stepOverPending ==> stepOverAddress <= UINT32_MAX && stepOverAddress % 2 == 0)
      && pcCertain && logicalPc == ShownPc()
    }

    /** The logical program counter is that of the breakpoint the core ran into, exactly when its report is
        unmistaken; otherwise it is that of the neighbour two bytes below. */
    ghost predicate HitsLocated(stop: StopDetect)
      requires bps.count <= bps.slots.Length
      reads this, bps, bps.slots
    {
      forall k :: RanInto(bps.Entries(), k, stop.pc) && Undisputed(stop) ==>
        && stepOverPending && stepOverAddress == logicalPc
        && logicalPc == if Unmistaken(bps.Entries(), k, stop.pc) then bps.Entries()[k].address else bps.Entries()[k].address - 2
    }

    /** An unmistaken hit is reported under the id of its breakpoint. */
    ghost predicate HitsNamed(stop: StopDetect)
      requires bps.count <= bps.slots.Length
      reads this, bps, bps.slots
    {
      forall k :: RanInto(bps.Entries(), k, stop.pc) && Undisputed(stop) && Unmistaken(bps.Entries(), k, stop.pc) ==>
        pending.reason.STOP_BREAKPOINT? && pending.breakpointId == bps.Entries()[k].id
    }

    /** The pending snapshot is the one of `stop`. */
    ghost predicate Keeps(stop: StopDetect, tracking: RunTracking)
      requires Wired() && bps.count <= bps.slots.Length
      reads this`pending, pendingRegisters, bps, bps.slots
    {
      var c := Classify(stop, bps.Entries(), tracking);
      && c.hit < bps.count && pending.registersSize + pending.stackSize <= SNAPSHOT_CAPACITY
      && pending.reason == c.reason && pending.breakpointId == c.breakpointId && pending.watchpointAddress == c.watchpointAddress
      && var seen := Visible(Parse(pendingRegisters[..pending.registersSize]), ARM_REG_PC);
         seen == -1 || seen == PlaceOf(c, stop, bps.Entries())
    }

    lemma KeptFollows(stop: StopDetect, tracking: RunTracking)
      requires Wired() && bps.Valid() && stop.pc == target.pc
      requires var c := Classify(stop, bps.Entries(), tracking); c.hit < bps.count && LocatedBy(c.hit) && ExplainedBy(c)
      requires PendingShows(logicalPc)
      ensures Keeps(stop, tracking)
    {
      hide Classify, Visible, Parse, bps.Valid;
    }

    /** The STOPPED event of that snapshot tells of that stop. */
    lemma ToldFollows(f: Frame, stop: StopDetect, tracking: RunTracking)
      requires Wired() && bps.Valid() && Keeps(stop, tracking) && StoppedFrame(f)
      ensures Tells(f, stop, bps.Entries(), tracking)
    {
      hide Classify, Visible, Parse, bps.Valid;
    }

    lemma SnappedHere(f: Frame)
      requires Core() && PendingSnapped() && StoppedFrame(f)
      ensures Snapped(f)
    {
      hide StoppedFrame, PendingSnapped, Snapped;
      SnappedFollows(f);
    }

    lemma ToldHere(f: Frame, stop: StopDetect, tracking: RunTracking)
      requires Core() && Keeps(stop, tracking)
      requires state.HALTED? && StoppedFrame(f)
      ensures Tells(f, stop, bps.Entries(), tracking)
    {
      hide Keeps, StoppedFrame, Tells;
      ToldFollows(f, stop, tracking);
    }

    lemma HitsFollow(stop: StopDetect, tracking: RunTracking)
      requires bps.Valid() && LocatedBy(Classify(stop, bps.Entries(), tracking).hit)
      ensures HitsLocated(stop)
      ensures ExplainedBy(Classify(stop, bps.Entries(), tracking)) ==> HitsNamed(stop)
    {
      hide Classify, Tracks, Disciplined, HaltKnown, Resumes, ImageAfter, Unmistaken, HitSlot, RanInto;
      forall k | RanInto(bps.Entries(), k, stop.pc) && Undisputed(stop)
        ensures 0 <= k < bps.count
        ensures
          var c := Classify(stop, bps.Entries(), tracking);
          && c.hit >= 0
          && bps.Entries()[c.hit].address ==
             (if Unmistaken(bps.Entries(), k, stop.pc) then bps.Entries()[k].address else bps.Entries()[k].address - 2)
          && (Unmistaken(bps.Entries(), k, stop.pc) ==> c == StopClass(STOP_BREAKPOINT, bps.Entries()[k].id, 0, k))
      {
        RanIntoSlot(bps.Entries(), k, stop.pc);
        StopAttributed(stop, bps.Entries(), tracking, k);
      }
    }

    method Locate(hit: int, pc: u32)
      requires Wired() && bps.count <= bps.slots.Length && -1 <= hit < bps.count && pc == target.pc
      requires hit >= 0 ==> bps.slots[hit].address % 2 == 0 && (bps.slots[hit].address == pc || bps.slots[hit].address == pc - 2)
      modifies this`stepOverPending, this`stepOverAddress, this`logicalPc, this`pcCertain
      ensures LocatedBy(hit)
    {
      stepOverPending := hit >= 0;
      stepOverAddress := if hit >= 0 then bps.slots[hit].address else 0;
      logicalPc, pcCertain := ShownPc(), true;
    }

    /** Starts the next stop generation and captures its snapshot. */
    method NewGeneration(c: StopClass)
      requires Core() && attached && target.halted && stopId < UINT32_MAX
      requires pcCertain && logicalPc == ShownPc()
      modifies this`state, this`stopId, this`stopReported, this`pending, this`run,
               target`mem, target`image, target`pc, target`trace, target`answer, target`halted, target`resumes, pendingRegisters
      ensures Core() && Held() && target.halted && TableKept()
      ensures Quiet(old(target.trace), target.trace) && target.resumes == old(target.resumes)
      ensures state.HALTED? && stopId == old(stopId) + 1 && !stopReported && ExplainedBy(c) && Unreported()
      ensures PendingShows(ShownPc())
      ensures PendingSnapped()
      ensures run == TrackingOf(Continue, 0, old(run).hwIds)
    {
      hide TableOk, Tracks, Disciplined, HaltKnown, Resumes, ImageAfter, StopsOrdered, StopsBelow, Parse, Visible, First, Shown;
      OpenGeneration(c);
      if caps.stopSnapshot {
        CaptureSnapshot();
      }
    }

    /** The bookkeeping of the next stop generation: nothing of it is captured or reported yet. */
    method OpenGeneration(c: StopClass)
      requires Core() && attached && target.halted && stopId < UINT32_MAX
      requires pcCertain && logicalPc == ShownPc()
      modifies this`state, this`stopId, this`stopReported, this`pending, this`run
      ensures Core() && Unreported() && ExplainedBy(c)
      ensures state.HALTED? && stopId == old(stopId) + 1 && !stopReported
      ensures pending.registersSize == 0 && pending.stackSize == 0 && PendingShows(ShownPc())
      ensures run == TrackingOf(Continue, 0, old(run).hwIds)
    {
      hide TableOk, Tracks, Disciplined, HaltKnown, Resumes, ImageAfter, StopsOrdered, StopsBelow, Parse, Visible, First;
      if !wrapped {
        GenerationAdvances(sink.frames, mark, stopId);
      }
      stopId := stopId + 1;
      state, stopReported := HALTED, false;
      pending := StopRecord(c.reason, c.breakpointId, c.watchpointAddress, 0, 0, 0);
      run := run.(action := Continue, runToActive := false, runTo := 0);
      EmptyShowsNothing(pendingRegisters[..0]);
    }

    /** The generation counter wraps: the target is declared lost instead. */
    method WrapGeneration()
      requires Core() && !state.LOST?
      modifies this`state, this`stopId, this`wrapped, this`transportDead, sink
      ensures Core() && Held() && state.LOST? && stopId == 0 && wrapped && (old(transportDead) ==> transportDead)
      ensures sink.frames == if transportDead then old(sink.frames) else old(sink.frames) + [TargetLost(LOST_TIMEOUT)]
    {
      hide TableOk, Tracks, Disciplined, HaltKnown, Resumes, ImageAfter, StopsOrdered, StopsBelow;
      stopId, wrapped := 0, true;
      EnterLost(LOST_TIMEOUT);
    }

    ghost predicate ExplainedBy(c: StopClass)
      reads this
    {
      pending.reason == c.reason && pending.breakpointId == c.breakpointId && pending.watchpointAddress == c.watchpointAddress
    }

    /** Works out why the core stopped; `hit` is the slot a BKPT stop belongs to. */
    method Explain(stop: StopDetect, hit: int) returns (c: StopClass)
      requires bps.count <= bps.slots.Length
      requires BkptStop(stop) ==> hit == HitSlot(bps.Entries(), stop.pc)
      ensures Explains(c, stop, bps.Entries(), run)
    {
      var reason, breakpointId, watchpointAddress, slot := STOP_UNKNOWN, 0, 0, -1;
      if stop.lockup {
        reason := STOP_LOCKUP;
      } else if stop.watchpointMatch || stop.dfsr.dwttrap {
        reason := STOP_WATCHPOINT;
        watchpointAddress := stop.watchpointAddress;
      } else if run.runToActive && stop.comparatorMatch && stop.pc == run.runTo {
        reason := STOP_RUN_TO_ADDRESS;
      } else if !stop.comparatorMatch && stop.dfsr.bkpt {
        reason := STOP_BREAKPOINT;
        slot := hit;
        if hit >= 0 {
          breakpointId := bps.slots[hit].id;
        }
      } else if stop.comparatorMatch || stop.dfsr.bkpt {
        reason := STOP_BREAKPOINT;
        if stop.comparatorMatch && stop.comparatorIndex < |run.hwIds| {
          breakpointId := run.hwIds[stop.comparatorIndex];
        }
      } else if stop.fault {
        reason := STOP_FAULT;
      } else if stop.dfsr.vcatch {
        reason := STOP_VECTOR_CATCH;
      } else if stop.dfsr.halted && run.action == SingleStep {
        reason := STOP_SINGLE_STEP;
      } else {
        reason := STOP_USER_HALT;
      }
      c := StopClass(reason, breakpointId, watchpointAddress, slot);
    }

    /** The pending snapshot fits its frame, and the program counter in it is `pc` or not shown. */
    ghost predicate PendingShows(pc: nat)
      requires Wired()
      reads this, pendingRegisters
    {
      && pending.registersSize + pending.stackSize <= SNAPSHOT_CAPACITY
      && var seen := Visible(Parse(pendingRegisters[..pending.registersSize]), ARM_REG_PC); seen == -1 || seen == pc
    }

    /** The first readable RAM region that holds `sp`. */
    ghost predicate RamHolding(k: int, sp: int)
      reads this`regions
    {
      0 <= k < |regions| && ReadableRam(regions[k], sp) && forall j :: 0 <= j < k ==> !ReadableRam(regions[j], sp)
    }

    /** `stack` is what the target holds at `address`: the whole clipped range, if the registers show a stack
        pointer that lies in readable RAM and the one read of it succeeds, and nothing otherwise. */
    ghost predicate StackIs(registers: seq<byte>, address: nat, stack: seq<byte>, before: seq<Call>)
      reads this`regions, target`trace, target`mem
    {
      && stack == Read(target.mem, address, |stack|)
      && var sp := Visible(Parse(registers), 13);
         if exists k :: RamHolding(k, sp) then
           && target.trace != [] && target.trace == before + [Last(target.trace)] && Last(target.trace).MemoryRead?
           && (Last(target.trace).ok ==>
                 forall k :: RamHolding(k, sp) ==> ClippedStack(regions[k], sp, 8192 - 12 - 36 - |registers|, address, |stack|))
           && (!Last(target.trace).ok ==> stack == [])
         else target.trace == before && stack == []
    }

    /** The snapshot of a stop: the registers the backend gave, as the peer is shown them, and the stack they
        point to; nothing at all if the session does not offer snapshots. */
    ghost predicate SnapshotIs(registers: seq<byte>, address: nat, stack: seq<byte>)
      reads this`caps, this`regions, this`stepOverPending, this`stepOverAddress, target`trace, target`mem
    {
      if !caps.stopSnapshot then registers == [] && stack == []
      else
        var calls := UpToRegisters(target.trace);
        && calls != [] && Last(calls).RegistersRead? && (stepOverPending ==> stepOverAddress <= UINT32_MAX)
        && registers == (if Last(calls).usable then Shown(Last(calls).blob) else [])
        && StackIs(registers, address, stack, calls)
    }

    /** The pending snapshot is the one of the stop the target stands at. */
    ghost predicate PendingSnapped()
      requires Wired()
      reads this`pending, this`caps, this`regions, this`stepOverPending, this`stepOverAddress, target`trace, target`mem,
            pendingRegisters
    {
      && pending.registersSize + pending.stackSize <= MAX_FRAME_SIZE
      && SnapshotIs(pendingRegisters[..pending.registersSize], pending.stackAddress,
                    pendingRegisters[pending.registersSize..pending.registersSize + pending.stackSize])
    }

    /** Without registers there is no stack. */
    lemma NoStack(before: seq<Call>)
      requires Wired() && target.trace == before && before != [] && Last(before).RegistersRead?
      ensures UpToRegisters(before) == before
      ensures forall a: nat :: StackIs(pendingRegisters[..0], a, pendingRegisters[0..0], before)
    {
      EmptyShowsNothing(pendingRegisters[..0]);
    }

    /** Reads the registers and the clipped stack into the pending snapshot. */
    method CaptureSnapshot()
      requires Wired() && bps.Valid() && target.halted
      requires pending.registersSize == 0 && pending.stackSize == 0 && caps.stopSnapshot
      requires stepOverPending ==> stepOverAddress <= UINT32_MAX
      modifies this`pending, target`mem, target`image, target`pc, target`trace, target`answer, target`halted, target`resumes, pendingRegisters
      ensures bps.Valid() && target.halted && TableKept()
      ensures Quiet(old(target.trace), target.trace) && target.resumes == old(target.resumes)
      ensures pending.reason == old(pending.reason) && pending.breakpointId == old(pending.breakpointId)
      ensures pending.watchpointAddress == old(pending.watchpointAddress)
      ensures PendingShows(ShownPc())
      ensures PendingSnapped()
    {
      hide TableOk, Tracks, Disciplined, HaltKnown, Resumes, ImageAfter, Parse, Visible, First, Shown, PcTruthful, StopsOrdered,
           StackIs, PendingSnapped, UpToRegisters;
      var got := FetchSnapshot();
      ghost var calls := target.trace;
      var blob := pendingRegisters[..pending.registersSize];
      if got {
        CaptureStack(blob);
        assert pendingRegisters[..pending.registersSize] == blob;
      } else {
        NoStack(calls);
      }
      PendingFollows(calls);
    }

    /** Reads the registers into the pending snapshot, as the peer is shown them. */
    method FetchSnapshot() returns (got: bool)
      requires Wired() && bps.Valid() && target.halted
      requires pending.registersSize == 0 && pending.stackSize == 0
      requires stepOverPending ==> stepOverAddress <= UINT32_MAX
      modifies this`pending, target`trace, target`answer, target`halted, target`resumes, pendingRegisters
      ensures bps.Valid() && target.halted && target.resumes == old(target.resumes)
      ensures pending == old(pending).(registersSize := pending.registersSize) && pending.registersSize <= SNAPSHOT_CAPACITY
      ensures PendingShows(ShownPc())
      ensures target.trace != [] && target.trace == old(target.trace) + [Last(target.trace)] && Last(target.trace).RegistersRead?
      ensures pendingRegisters[..pending.registersSize] == if Last(target.trace).usable then Shown(Last(target.trace).blob) else []
      ensures !got ==> pending.registersSize == 0
    {
      hide TableOk, Tracks, Disciplined, HaltKnown, Resumes, ImageAfter, Parse, Visible, First, Shown, PcTruthful, StopsOrdered;
      var e, size := target.ReadRegs(pendingRegisters, 0, SNAPSHOT_CAPACITY);
      EmptyShowsNothing(pendingRegisters[..0]);
      got := e.OK? && size <= SNAPSHOT_CAPACITY;
      if got {
        assert pendingRegisters[0..0 + size] == pendingRegisters[..size];
        NormalizePcInBlob(pendingRegisters, 0, size);
        assert pendingRegisters[0..0 + size] == pendingRegisters[..size];
        pending := pending.(registersSize := size);
      }
    }

    lemma PendingFollows(calls: seq<Call>)
      requires Wired() && pending.registersSize + pending.stackSize <= SNAPSHOT_CAPACITY && caps.stopSnapshot
      requires stepOverPending ==> stepOverAddress <= UINT32_MAX
      requires calls != [] && Last(calls).RegistersRead? && UpToRegisters(target.trace) == calls
      requires pendingRegisters[..pending.registersSize] == if Last(calls).usable then Shown(Last(calls).blob) else []
      requires StackIs(pendingRegisters[..pending.registersSize], pending.stackAddress,
                       pendingRegisters[pending.registersSize..pending.registersSize + pending.stackSize], calls)
      ensures PendingSnapped()
    {
      hide StackIs, Shown;
    }

    /** Replaces the program counter of a register blob while a step-over is pending. */
    method NormalizePcInBlob(data: array<byte>, base: nat, size: nat)
      requires base + size <= data.Length && PcTruthful(data[base..base + size], target.pc)
      requires stepOverPending ==> stepOverAddress <= UINT32_MAX
      modifies data
      ensures data[base..base + size] == Shown(old(data[base..base + size]))
      ensures forall i :: 0 <= i < data.Length && !(base <= i < base + size) ==> data[i] == old(data[i])
      ensures Visible(Parse(data[base..base + size]), ARM_REG_PC) == -1 ||
              Visible(Parse(data[base..base + size]), ARM_REG_PC) == ShownPc()
    {
      hide Parse, Visible, First, Normalized;
      TruthfulVisible(data[base..base + size], target.pc);
      if !stepOverPending {
        return;
      }
      NormalizedVisible(data[base..base + size], stepOverAddress);
      NormalizePc(data, base, size, U32Bytes(stepOverAddress));
    }

    /** Appends the part of the stack around SP that lies in readable RAM and fits the frame. */
    method CaptureStack(blob: seq<byte>)
      requires Wired() && bps.Valid() && target.halted
      requires pending.registersSize == |blob| <= SNAPSHOT_CAPACITY && pending.stackSize == 0
      requires blob == pendingRegisters[..|blob|] && target.trace != [] && Last(target.trace).RegistersRead?
      modifies this`pending, target`mem, target`image, target`pc, target`trace, target`answer, target`halted, target`resumes, pendingRegisters
      ensures bps.Valid() && target.halted && TableKept()
      ensures Quiet(old(target.trace), target.trace) && target.resumes == old(target.resumes)
      ensures pending == old(pending).(stackSize := pending.stackSize, stackAddress := pending.stackAddress)
      ensures pending.registersSize + pending.stackSize <= SNAPSHOT_CAPACITY
      ensures pendingRegisters[..|blob|] == blob
      ensures StackIs(blob, pending.stackAddress, pendingRegisters[|blob|..|blob| + pending.stackSize], old(target.trace))
      ensures UpToRegisters(target.trace) == old(target.trace)
    {
      hide TableOk, Tracks, Disciplined, HaltKnown, Resumes, ImageAfter, Parse, Offset;
      OffsetVisible(blob, 0, ARM_REG_SP);
      assert pendingRegisters[|blob|..|blob| + 0] == [];
      var found, at := FindEntry(blob, ARM_REG_SP);
      if !found {
        return;
      }
      var sp: nat := U32(EntryAt(blob, at).value);
      var region := FindRam(sp);
      if region < 0 {
        return;
      }
      assert RamHolding(region, sp) && forall k :: RamHolding(k, sp) ==> k == region;
      var range := StackRange(regions[region], sp, SNAPSHOT_CAPACITY - |blob|);
      var e, data := target.ReadMem(range.0, range.1, bps.Entries());
      assert RamHolding(region, sp);
      if !e.OK? {
        assert pendingRegisters[|blob|..|blob|] == [];
        assert Visible(Parse(blob), 13) == sp;
        assert Last(target.trace).MemoryRead? && !Last(target.trace).ok;
        assert Read(target.mem, pending.stackAddress, 0) == [];
        return;
      }
      KeepStack(blob, range.0, data);
    }

    /** Puts the stack behind the registers of the pending snapshot. */
    method KeepStack(blob: seq<byte>, address: nat, data: seq<byte>)
      requires |blob| + |data| <= pendingRegisters.Length && blob == pendingRegisters[..|blob|]
      modifies this`pending, pendingRegisters
      ensures pending == old(pending).(stackAddress := address, stackSize := |data|)
      ensures pendingRegisters[..|blob|] == blob && pendingRegisters[|blob|..|blob| + |data|] == data
    {
      StoreAt(pendingRegisters, |blob|, data);
      assert pendingRegisters[..|blob|] == blob;
      assert pendingRegisters[|blob|..|blob| + |data|] == data;
      pending := pending.(stackAddress := address, stackSize := |data|);
    }

    /** The first readable RAM region that contains `sp`, or -1. */
    method FindRam(sp: nat) returns (k: int)
      ensures -1 <= k < |regions|
      ensures if k >= 0 then RamHolding(k, sp) else forall j :: 0 <= j < |regions| ==> !ReadableRam(regions[j], sp)
    {
      for index := 0 to |regions|
        invariant forall j :: 0 <= j < index ==> !ReadableRam(regions[j], sp)
      {
        var r := regions[index];
        if !r.kind.RAM? || !r.readable || r.start + r.length > UINT64_MAX {
          continue;
        }
        if r.start <= sp < r.start + r.length {
          return index;
        }
      }
      k := -1;
    }

    /** Queues STOPPED for the pending snapshot, once. */
    method EmitPendingStopped()
      requires Core() && Held()
      modifies this`transportDead, this`stopReported, sink
      ensures Core() && EventsSince(old(sink.frames), sink.frames)
      ensures old(transportDead) ==> transportDead && sink.frames == old(sink.frames)
      ensures state.HALTED? && !transportDead ==> stopReported
      ensures state.HALTED? && !old(stopReported) && !transportDead ==>
                |sink.frames| == |old(sink.frames)| + 1 && StoppedFrame(sink.frames[|old(sink.frames)|])
      ensures state.HALTED? && !old(stopReported) && transportDead ==> sink.frames == old(sink.frames)
      ensures !state.HALTED? || old(stopReported) ==>
                && sink.frames == old(sink.frames) && stopReported == old(stopReported)
                && transportDead == old(transportDead)
    {
      hide StopsOrdered, StopsBelow, Parse, LossTold, TableOk, Tracks, Disciplined, HaltKnown, Resumes, ImageAfter;
      if stopReported || !state.HALTED? {
        return;
      }
      var registers := pendingRegisters[..pending.registersSize];
      var count := CountEntries(registers);
      var stack := pendingRegisters[pending.registersSize..pending.registersSize + pending.stackSize];
      var f := Stopped(stopId, pending.reason, pending.breakpointId, pending.watchpointAddress, count, registers,
                       pending.stackAddress, stack);
      if !wrapped {
        StopsOrderedStop(sink.frames, f, mark, stopId);
      }
      stopReported := FinishFrame(f);
    }

    /** The STOPPED event of the pending snapshot. */
    ghost predicate StoppedFrame(f: Frame)
      requires Wired() && pending.registersSize + pending.stackSize <= SNAPSHOT_CAPACITY
      reads this, pendingRegisters
    {
      && f.Stopped? && f.stopId == stopId && f.reason == pending.reason && f.breakpointId == pending.breakpointId
      && f.watchpointAddress == pending.watchpointAddress
      && f.registers == pendingRegisters[..pending.registersSize]
      && f.registerCount == |Parse(f.registers)|
      && f.stack == pendingRegisters[pending.registersSize..pending.registersSize + pending.stackSize]
      && |f.stack| == pending.stackSize && f.stackAddress == pending.stackAddress
    }

    lemma SnappedFollows(f: Frame)
      requires Wired() && PendingSnapped() && pending.registersSize + pending.stackSize <= SNAPSHOT_CAPACITY && StoppedFrame(f)
      ensures Snapped(f)
    {
      hide SnapshotIs;
    }

    /** A STOPPED event that carries the snapshot of the stop the target stands at. */
    ghost predicate Snapped(f: Frame)
      reads this`caps, this`regions, this`stepOverPending, this`stepOverAddress, target`trace, target`mem
    {
      f.Stopped? && SnapshotIs(f.registers, f.stackAddress, f.stack)
    }

    // ---- the run configuration ----------------------------------------------------------------

    /** No debug resource is installed and the target runs its own code. */
    ghost predicate Bare()
      requires bps.count <= bps.slots.Length
      reads target, bps, bps.slots
    {
      && bps.Entries() == [] && target.hw == [] && target.wps == [] && target.catchMask == {}
      && Same(target.mem, target.image)
    }

    /** Clears every resource of a RUN attempt. */
    method RollbackRunConfig() returns (ok: bool)
      requires Wired() && bps.Valid() && target.halted
      modifies this`run, bps`count, bps.slots, target`mem, target`trace, target`answer, target`halted, target`resumes,
               target`hw, target`wps, target`catchMask
      ensures bps.Valid() && target.halted && run == NOT_RUNNING
      ensures Quiet(old(target.trace), target.trace) && target.resumes == old(target.resumes)
      ensures ok ==> Bare()
      ensures Unrestored(bps.Entries(), old(target.trace), target.trace)
      ensures |target.trace| >= |old(target.trace)| + 3
      ensures Restored(old(bps.Entries()), target.trace[|old(target.trace)|..|target.trace| - 3], bps.Entries())
      ensures !ok ==> Faulty(old(target.trace), target.trace)
    {
      hide TableOk, Tracks, Disciplined, HaltKnown, Resumes, ImageAfter, Restored, Unrestored, Faulty;
      ok := bps.RestoreAll();
      ghost var restored := target.trace;
      var cleared := ClearHardware();
      if !(cleared && ok) {
        FaultyOn(old(target.trace), restored, target.trace);
      }
      ok := cleared && ok;
      ClearRunTracking();
      assert target.trace[|old(target.trace)|..|target.trace| - 3] == restored[|old(target.trace)|..];
      UnrestoredStill(bps.Entries(), old(target.trace), restored, target.trace);
    }

    /** Clears comparators, watchpoints and vector catch. */
    method ClearHardware() returns (ok: bool)
      requires Wired() && bps.Valid() && target.halted
      modifies target`trace, target`answer, target`halted, target`resumes, target`hw, target`wps, target`catchMask
      ensures bps.Valid() && target.halted && target.resumes == old(target.resumes)
      ensures Quiet(old(target.trace), target.trace) && |target.trace| == |old(target.trace)| + 3
      ensures ok ==> target.hw == [] && target.wps == [] && target.catchMask == {}
      ensures !ok ==> Faulty(old(target.trace), target.trace)
    {
      hide TableOk, Tracks, Disciplined, HaltKnown, Resumes, ImageAfter;
      var e := target.ApplyBreakpoints([]);
      ok := e.OK?;
      e := target.ApplyWatchpoints([]);
      ok := e.OK? && ok;
      e := target.SetVectorCatch({});
      ok := e.OK? && ok;
      ghost var n := |old(target.trace)|;
      if !ok {
        assert Failing(target.trace[n]) || Failing(target.trace[n + 1]) || Failing(target.trace[n + 2]);
      }
    }

    method ClearRunTracking()
      modifies this`run
      ensures run == NOT_RUNNING
    {
      run := NOT_RUNNING;
    }

    method ClearDebugState()
      modifies this`stopReported, this`pending, this`stepOverPending, this`stepOverAddress
      ensures !stopReported && pending == NO_RECORD && !stepOverPending && stepOverAddress == 0
    {
      stopReported, pending, stepOverPending, stepOverAddress := false, NO_RECORD, false, 0;
    }

    /** A RUN whose configuration could not be installed: everything goes, or the target is lost. */
    method FailRun(id: nat, status: Status) returns (st: Status)
      requires Core() && Held() && state.HALTED? && !status.STATUS_OK? && !transportDead
      modifies this`run, this`state, this`transportDead, sink, bps`count, bps.slots, target`mem, target`trace, target`answer,
               target`halted, target`resumes, target`hw, target`wps, target`catchMask
      ensures Core() && Held() && run == NOT_RUNNING && !st.STATUS_OK? && (old(stopReported) ==> Valid())
      ensures Quiet(old(target.trace), target.trace) && target.resumes == old(target.resumes)
      ensures Answered(old(sink.frames), sink.frames, OP_RUN, id, st, transportDead)
      ensures state.LOST? || (state.HALTED? && target.halted && Bare())
      ensures |target.trace| > |old(target.trace)|
      ensures st == status || (st.STATUS_SWD_ERROR? && Faulty(old(target.trace), target.trace))
      ensures state.LOST? ==> Faulty(old(target.trace), target.trace)
    {
      hide TableOk, Tracks, Disciplined, HaltKnown, Resumes, ImageAfter, StopsOrdered, StopsBelow, Quiet, Same, Faulty;
      var restored := RollbackRunConfig();
      st := if restored then status else STATUS_SWD_ERROR;
      SendResponse(OP_RUN, id, st);
      if !restored {
        EnterLost(LOST_SWD_FAULT);
      }
    }

    /** Moves the core to `pc`. A failed write may have moved it already. */
    method WriteCurrentPc(pc: u32) returns (ok: bool)
      requires target.Valid()
      modifies target`trace, target`answer, target`halted, target`resumes, target`pc
      ensures target.Valid() && target.halted == old(target.halted) && target.resumes == old(target.resumes)
      ensures target.trace == old(target.trace) + [RegistersWritten([15, 0, 4, 0] + U32Bytes(pc), ok)]
      ensures ok ==> target.pc == pc
      ensures target.pc == pc || target.pc == old(target.pc)
    {
      hide Disciplined, HaltKnown, Resumes, ImageAfter, PcWrites, Parse;
      var entry := [15, 0, 4, 0] + U32Bytes(pc);
      PcEntryWrites(pc);
      var e := target.WriteRegs(entry);
      ok := e.OK?;
    }

    // ---- step-over -------------------------------------------------------------------------------

    /** The table and the comparators hold exactly what `config` asks for. */
    ghost predicate Installed(config: RunConfig)
      requires bps.count <= bps.slots.Length
      reads target, bps, bps.slots
    {
      && SameSites(bps.Entries(), config.sw) && Armed(bps.Entries(), target.mem, target.image)
      && target.hw == config.hw && target.wps == config.wps && target.catchMask == config.catchMask
    }

    /** Executes the instruction under the breakpoint the core is halted on, once, with its patch
        lifted; then puts the patch back. */
    method ExecuteStepOver(action: RunAction, ghost config: RunConfig) returns (r: StepResult, stop: StopDetect, lost: LostReason)
      requires Core() && state.HALTED? && Installed(config) && Genuine(config.sw, target.image)
      modifies this`stepOverPending, this`stepOverAddress, bps.slots, target`mem, target`image, target`pc, target`trace, target`answer,
               target`halted, target`resumes
      ensures Sound() && (r.NotNeeded? || r.Failed? ==> Core())
      ensures stepOverPending ==> old(stepOverPending) && stepOverAddress == old(stepOverAddress)
      ensures r.NotNeeded? <==> !old(stepOverPending)
      ensures r.NotNeeded? ==>
                && target.trace == old(target.trace) && target.resumes == old(target.resumes) && target.halted
                && Installed(config) && target.pc == old(target.pc) && !stepOverPending
      ensures r.Failed? ==>
                && Quiet(old(target.trace), target.trace) && target.resumes == old(target.resumes) && target.halted
                && stepOverPending && target.image == old(target.image)
      ensures !r.NotNeeded? && !r.Failed? ==> SteppedOnce(old(target.resumes), target.resumes, old(stepOverAddress), config)
      ensures r.Stepped? || r.StoppedStep? || r.StoppedReal? ==>
                target.halted && Installed(config) && !stepOverPending && stop.pc == target.pc
      ensures r.FailedLost? && target.halted ==> !stepOverPending
      ensures r.StoppedStep? ==> action == SingleStep
      ensures r.Stepped? ==> action != SingleStep
      ensures CallsBy(OP_RUN, old(target.trace), target.trace)
      ensures r.Failed? ==> Faulty(old(target.trace), target.trace)
      ensures r.FailedLost? ==> Faulty(old(target.trace), target.trace) || Exhausted(old(target.trace), target.trace)
      ensures SitesSpared(config.sw, old(target.image), target.image)
      ensures |target.resumes| > |old(target.resumes)| ==>
                WholeStep(target.resumes[|old(target.resumes)|], old(stepOverAddress), config.sw)
      ensures r.StoppedReal? ==> ShowsCause(stop)
      ensures r.StoppedStep? ==> !ShowsCause(stop)
    {
      hide TableOk, Tracks, Disciplined, HaltKnown, Resumes, ImageAfter, ArmedExcept, StopsOrdered, StopsBelow, ProgramRan, ReadyToStep, WholeStep, Genuine, Faulty, Exhausted, ShowsCause;
      r, stop, lost := NotNeeded, NO_STOP, LOST_SWD_FAULT;
      if !stepOverPending {
        return;
      }
      var ready, bp := LiftAndRewind(config);
      if !ready {
        r := Failed;
        return;
      }
      ghost var at, lifted := target.At(bps.Entries()), target.trace;
      var e := target.Resume(SingleStep, 0, StepOver(stepOverAddress), config, bps.Entries());
      StepsWhole(Resumed(StepOver(stepOverAddress), config, at, e.OK?), bps.Entries(), bp, stepOverAddress, config.sw);
      ghost var mid := target.trace;
      if !e.OK? {
        FaultyLast(lifted, Last(mid));
        FaultyOn(old(target.trace), lifted, mid);
        r, lost := FailedLost, LossOf(e);
        return;
      }
      r, stop, lost := CompleteStep(action, bp, config);
      if Faulty(mid, target.trace) {
        FaultyOn(old(target.trace), mid, target.trace);
      } else if Exhausted(mid, target.trace) {
        ExhaustedOn(old(target.trace), mid, target.trace, target.trace);
      }
    }

    /** Waits for the internal step and puts the patch back. */
    method CompleteStep(action: RunAction, bp: int, ghost config: RunConfig)
      returns (r: StepResult, stop: StopDetect, lost: LostReason)
      requires Sound() && !target.halted && -1 <= bp < bps.count && ConfiguredFor(config)
      requires ArmedExcept(bps.Entries(), bp, target.mem, target.image)
      requires bp >= 0 ==> Remembers(bps.Entries()[bp], target.image)
      modifies this`stepOverPending, this`stepOverAddress, bps.slots, target`mem, target`image, target`pc, target`trace, target`answer,
               target`halted, target`resumes
      ensures Sound() && Quiet(old(target.trace), target.trace) && target.resumes == old(target.resumes)
      ensures stepOverPending ==> old(stepOverPending) && stepOverAddress == old(stepOverAddress)
      ensures !r.FailedLost? ==> target.halted && Installed(config) && !stepOverPending && stop.pc == target.pc
      ensures r == FailedLost || r == OutcomeOf(action, stop)
      ensures r.FailedLost? && target.halted ==> !stepOverPending
      ensures r.FailedLost? ==> Faulty(old(target.trace), target.trace) || Exhausted(old(target.trace), target.trace)
      ensures SitesSpared(config.sw, old(target.image), target.image)
    {
      hide TableOk, Tracks, Disciplined, HaltKnown, Resumes, ImageAfter, ArmedExcept, StopsOrdered, StopsBelow, ProgramRan, Faulty, Exhausted, ShowsCause;
      r := FailedLost;
      var confirmed;
      ghost var es, m, i := bps.Entries(), target.mem, target.image;
      confirmed, stop, lost := AwaitStep(bp);
      RanSpares(es, m, i, target.mem, target.image);
      SparedAtSites(es, config.sw, i, target.image);
      if !confirmed {
        return;
      }
      stepOverPending, stepOverAddress := false, 0;
      if bp >= 0 {
        ghost var mid := target.trace;
        var planted := bps.ReplantOne(bp);
        if !planted {
          FaultyOn(old(target.trace), mid, target.trace);
          return;
        }
      }
      r := OutcomeOf(action, stop);
    }

    /** How the completed internal step ends: with a stop of its own, or as the step that was asked for,
        or as the prelude to the real resume. */
    function OutcomeOf(action: RunAction, stop: StopDetect): (r: StepResult)
      ensures r.StoppedReal? <==> ShowsCause(stop)
      ensures !r.StoppedReal? ==> r == if action == SingleStep then StoppedStep else Stepped
    {
      assert HasCause(STOP_LOCKUP, stop, NOT_RUNNING) == stop.lockup && HasCause(STOP_FAULT, stop, NOT_RUNNING) == stop.fault;
      assert HasCause(STOP_WATCHPOINT, stop, NOT_RUNNING) == (stop.watchpointMatch || stop.dfsr.dwttrap);
      assert HasCause(STOP_BREAKPOINT, stop, NOT_RUNNING) == (stop.comparatorMatch || stop.dfsr.bkpt);
      assert HasCause(STOP_VECTOR_CATCH, stop, NOT_RUNNING) == stop.dfsr.vcatch;
      if stop.lockup || stop.fault || stop.watchpointMatch || stop.comparatorMatch
         || stop.dfsr.bkpt || stop.dfsr.dwttrap || stop.dfsr.vcatch then StoppedReal
      else if action == SingleStep then StoppedStep
      else Stepped
    }

    /** The comparators and the sites of the table are those of `config`. */
    ghost predicate ConfiguredFor(config: RunConfig)
      requires bps.count <= bps.slots.Length
      reads target, bps, bps.slots
    {
      && SameSites(bps.Entries(), config.sw)
      && target.hw == config.hw && target.wps == config.wps && target.catchMask == config.catchMask
    }

    /** Takes the pending breakpoint, if the table has it, out of memory and puts the core on it. */
    method LiftAndRewind(ghost config: RunConfig) returns (ready: bool, bp: int)
      requires Wired() && bps.Valid() && target.halted && Installed(config)
      requires stepOverPending && stepOverAddress <= UINT32_MAX && stepOverAddress % 2 == 0
      modifies bps.slots, target`mem, target`pc, target`trace, target`answer, target`halted, target`resumes
      ensures bps.Valid() && target.halted && ConfiguredFor(config)
      ensures Quiet(old(target.trace), target.trace) && target.resumes == old(target.resumes)
      ensures ready ==>
                && -1 <= bp < bps.count && ArmedExcept(bps.Entries(), bp, target.mem, target.image)
                && ReadyToStep(stepOverAddress, target.At(bps.Entries()))
                && (bp >= 0 ==> Remembers(bps.Entries()[bp], target.image))
      ensures ready ==> OnlyAt(bps.Entries(), bp, stepOverAddress)
      ensures !ready ==> Faulty(old(target.trace), target.trace)
    {
      hide TableOk, Tracks, Disciplined, HaltKnown, Resumes, ImageAfter, ArmedExcept, StopsOrdered, StopsBelow, ProgramRan, ReadyToStep, Faulty;
      bp := bps.FindByAddress(stepOverAddress);
      if bp >= 0 {
        var lifted := bps.LiftOne(bp);
        if !lifted {
          return false, bp;
        }
      }
      ghost var lift := target.trace;
      ready := WriteCurrentPc(stepOverAddress);
      if !ready {
        FaultyLast(lift, Last(target.trace));
        FaultyOn(old(target.trace), lift, target.trace);
      }
      ghost var mid := target.trace;
      if ready {
        ReadyWhenLifted(bps.Entries(), bp, stepOverAddress, target.At(bps.Entries()));
      } else if bp >= 0 {
        var _ := bps.ReplantOne(bp);
        FaultyOn(old(target.trace), mid, target.trace);
      }
    }

    /** Waits, within a bounded number of polls, for the internal step to complete. */
    method AwaitStep(ghost skip: int) returns (confirmed: bool, stop: StopDetect, lost: LostReason)
      requires bps.Valid() && !target.halted && -1 <= skip < bps.count
      requires ArmedExcept(bps.Entries(), skip, target.mem, target.image)
      requires skip >= 0 ==> Remembers(bps.Entries()[skip], target.image)
      requires bps.target == target
      modifies target`mem, target`image, target`pc, target`trace, target`answer, target`halted, target`resumes
      ensures bps.Valid() && target.resumes == old(target.resumes) && Quiet(old(target.trace), target.trace)
      ensures ArmedExcept(bps.Entries(), skip, target.mem, target.image)
      ensures skip >= 0 ==> Remembers(bps.Entries()[skip], target.image)
      ensures confirmed ==> stop.pc == target.pc
      ensures confirmed <==> target.halted
      ensures ProgramRan(bps.Entries(), old(target.mem), old(target.image), target.mem, target.image)
      ensures !confirmed ==> Faulty(old(target.trace), target.trace) || Exhausted(old(target.trace), target.trace)
    {
      hide TableOk, Tracks, Disciplined, HaltKnown, Resumes, ImageAfter, ArmedExcept, ProgramRan, Remembers;
      confirmed, stop, lost := false, NO_STOP, LOST_TIMEOUT;
      ProgramRested(bps.Entries(), target.mem, target.image);
      for attempt := 0 to 100
        invariant bps.Valid() && !target.halted && target.resumes == old(target.resumes)
        invariant Quiet(old(target.trace), target.trace) && |target.trace| == |old(target.trace)| + attempt
        invariant forall i :: |old(target.trace)| <= i < |target.trace| ==> target.trace[i].Polled? && target.trace[i].ok && !target.trace[i].halted
        invariant ProgramRan(bps.Entries(), old(target.mem), old(target.image), target.mem, target.image)
        invariant ArmedExcept(bps.Entries(), skip, target.mem, target.image)
        invariant skip >= 0 ==> Remembers(bps.Entries()[skip], target.image)
      {
        ghost var m, i, es := target.mem, target.image, bps.Entries();
        var e;
        e, stop := target.PollHalted(bps.Entries());
        ProgramRanOn(es, old(target.mem), old(target.image), m, i, target.mem, target.image);
        ProgramRanArmed(es, skip, m, i, target.mem, target.image);
        if skip >= 0 {
          ProgramRanRemembers(es, skip, m, i, target.mem, target.image);
        }
        if !e.OK? {
          lost := LossOf(e);
          assert Failing(Last(target.trace));
          return;
        }
        if stop.halted {
          confirmed := true;
          return;
        }
      }
      assert Waited(target.trace, |old(target.trace)|);
    }

    function LossOf(e: Err): (r: LostReason)
      ensures r.LOST_TIMEOUT? <==> e.TIMEOUT?
    {
      if e.TIMEOUT? then LOST_TIMEOUT else LOST_SWD_FAULT
    }

    // ---- GET_STATE, memory and registers --------------------------------------------------------

    /** GET_STATE: the state, with the stop while there is one. */
    twostate predicate GetStateDone(p: Payload, st: Status)
      reads this, sink, target
    {
      && (if p.Empty? then st.STATUS_OK? else st.STATUS_INVALID_ARGUMENT?)
      && state == old(state) && stopId == old(stopId) && target.trace == old(target.trace)
      && (st.STATUS_OK? && |sink.frames| > |old(sink.frames)| ==>
            Bears(sink.frames[|old(sink.frames)|], StateBody(state, if state.HALTED? then stopId else 0)))
    }

    method OpGetState(id: nat, payload: Payload) returns (st: Status)
      requires Valid() && !transportDead
      modifies this`transportDead, sink
      ensures Valid() && Answered(old(sink.frames), sink.frames, OP_GET_STATE, id, st, transportDead)
      ensures |sink.frames| <= |old(sink.frames)| + 1
      ensures GetStateDone(payload, st)
    {
      hide StopsOrdered, StopsBelow;
      if !payload.Empty? {
        st := STATUS_INVALID_ARGUMENT;
        SendResponse(OP_GET_STATE, id, st);
        return;
      }
      st := STATUS_OK;
      var _ := FinishFrame(Response(OP_GET_STATE, id, st, StateBody(state, if state.HALTED? then stopId else 0)));
    }

    /** The state a memory request asks for: halted at the stop it names, or any, with no stop named. */
    ghost predicate AccessAllowed(flags: AccessFlags, requestStopId: u32)
      reads this
    {
      && flags.requireHalted != flags.allowRunning
      && if flags.requireHalted then state.HALTED? && requestStopId == stopId else requestStopId == 0
    }

    /** One region of the attached memory map admits the whole access. */
    ghost predicate Admitted(address: nat, length: nat, flags: AccessFlags, width: nat, isWrite: bool)
      reads this
    {
      && length > 0 && address + length <= UINT64_MAX && RegionOf(regions, address, length) >= 0
      && Admission(regions[RegionOf(regions, address, length)], address, length, flags, width, isWrite).STATUS_OK?
    }

    ghost predicate MayRead(p: Payload)
      reads this
    {
      && p.ReadMemoryRequest? && AccessAllowed(p.flags, p.stopId) && p.length <= maxTransfer
      && Admitted(p.address, p.length, p.flags, p.width, false)
    }

    ghost predicate MayWrite(p: Payload)
      reads this
    {
      && p.WriteMemoryRequest? && |p.data| == p.length && AccessAllowed(p.flags, p.stopId) && p.length <= maxTransfer
      && Admitted(p.address, p.length, p.flags, p.width, true)
    }

    ghost predicate MayReadRegisters(p: Payload)
      reads this
    {
      p.ReadRegistersRequest? && p.coreId == 0 && p.stopId == stopId && |p.ids| <= 64
    }

    ghost predicate MayWriteRegisters(p: Payload)
      reads this
    {
      && p.WriteRegistersRequest? && p.coreId == 0 && p.stopId == stopId
      && p.count > 0 && WriteList(p.registers, 0, p.count)
    }

    /** Why a reset is refused before any call. */
    predicate RefusedReset(p: Payload, st: Status) {
      if p.ResetRequest? && (p.kind == 1 || p.kind == 2) then st.STATUS_UNSUPPORTED? else st.STATUS_INVALID_ARGUMENT?
    }

    ghost predicate MayReset(p: Payload, capable: bool)
      reads this
    {
      && p.ResetRequest? && capable
      && ((p.kind == 1 && caps.resetSystem) || (p.kind == 2 && caps.resetNrst))
    }

    ghost predicate MayRun(r: RunRequest)
      reads this
    {
      && r.coreId == 0 && r.stopId == stopId && r.sized && r.catchMask <= catchSupported
      && (r.action == 1 || r.action == 2 || r.action == 3)
      && (r.action == 2 ==> caps.singleStep)
      && (r.action != 3 ==> r.runTo == 0)
      && (r.action == 3 ==> r.runTo != 0 && r.runTo % 2 == 0 && ExecutableRange(regions, r.runTo, 2, false))
      && |r.breakpoints| <= MAX_HARDWARE_BREAKPOINTS + MAX_SOFTWARE_BREAKPOINTS
      && AllSettable(r.breakpoints, caps, hwLimit, regions)
      && (r.action == 3 ==> caps.hardwareBp && ComparatorFor(r.runTo, HardwareOf(r.breakpoints)))
      && |r.watchpoints| <= MAX_HARDWARE_WATCHPOINTS && |r.watchpoints| <= wpLimit && (r.watchpoints != [] ==> caps.watchpoint)
      && forall i :: 0 <= i < |r.watchpoints| ==> Watchable(r.watchpoints[i])
    }

    /** Run-to-address finds a comparator: one that already watches the address, or a free one. */
    ghost predicate ComparatorFor(address: nat, hw: seq<BpEntry>)
      reads this
    {
      |hw| < hwLimit || exists k :: 0 <= k < |hw| && hw[k].address == address
    }

    /** Why a request for memory is refused for the state it asks for. */
    ghost function AccessStatus(flags: AccessFlags, requestStopId: u32): Status
      reads this
    {
      if flags.requireHalted == flags.allowRunning then STATUS_INVALID_ARGUMENT
      else if flags.allowRunning then (if requestStopId != 0 then STATUS_INVALID_ARGUMENT else STATUS_OK)
      else if state.RUNNING? then STATUS_TARGET_RUNNING
      else if !state.HALTED? then STATUS_TARGET_LOST
      else if requestStopId != stopId then STATUS_STALE_STOP
      else STATUS_OK
    }

    /** Why it is refused for the memory it names. */
    ghost function RangeStatus(address: nat, length: nat, flags: AccessFlags, width: nat, isWrite: bool): Status
      reads this
    {
      if length == 0 || length > maxTransfer then STATUS_INVALID_ARGUMENT
      else if address + length > UINT64_MAX || RegionOf(regions, address, length) < 0 then STATUS_ADDRESS_ERROR
      else Admission(regions[RegionOf(regions, address, length)], address, length, flags, width, isWrite)
    }

    /** The status of a refused READ_MEMORY or WRITE_MEMORY: the form of the request is judged first, then the state
        it asks for, then the memory it names. */
    ghost function MemoryRefusal(p: Payload, isWrite: bool): Status
      reads this
    {
      if isWrite && p.WriteMemoryRequest? && p.flags.requireHalted != p.flags.allowRunning && |p.data| == p.length then
        if !AccessStatus(p.flags, p.stopId).STATUS_OK? then AccessStatus(p.flags, p.stopId)
        else RangeStatus(p.address, p.length, p.flags, p.width, true)
      else if !isWrite && p.ReadMemoryRequest? then
        if !AccessStatus(p.flags, p.stopId).STATUS_OK? then AccessStatus(p.flags, p.stopId)
        else RangeStatus(p.address, p.length, p.flags, p.width, false)
      else STATUS_INVALID_ARGUMENT
    }

    /** The checks READ_MEMORY and WRITE_MEMORY share before the memory map is consulted. */
    method CheckAccess(flags: AccessFlags, requestStopId: u32) returns (st: Status)
      ensures st.STATUS_OK? <==> AccessAllowed(flags, requestStopId)
      ensures st == AccessStatus(flags, requestStopId)
    {
      if flags.requireHalted == flags.allowRunning {
        return STATUS_INVALID_ARGUMENT;
      }
      if flags.requireHalted {
        if !state.HALTED? {
          return if state.RUNNING? then STATUS_TARGET_RUNNING else STATUS_TARGET_LOST;
        }
        if requestStopId != stopId {
          return STATUS_STALE_STOP;
        }
      } else if requestStopId != 0 {
        return STATUS_INVALID_ARGUMENT;
      }
      st := STATUS_OK;
    }

    /** READ_MEMORY: OK means that the request was admissible and its one read succeeded, and the answer is the
        program image. */
    twostate predicate ReadMemoryDone(p: Payload, st: Status)
      requires bps.count <= bps.slots.Length
      reads this, sink, target, bps, bps.slots
    {
      && (st.STATUS_OK? ==> old(MayRead(p))) && (!old(MayRead(p)) ==> st == old(MemoryRefusal(p, false)))
      && target.trace == (if old(MayRead(p)) then old(target.trace) + [MemoryRead(st.STATUS_OK?, bps.Entries(), target.image)] else old(target.trace))
      && (old(MayRead(p)) && !st.STATUS_OK? ==> FailedAs(target.answer, STATUS_ADDRESS_ERROR, st, old(state)))
      && (st.STATUS_OK? && |sink.frames| > |old(sink.frames)| ==>
            && p.ReadMemoryRequest?
            && Bears(sink.frames[|old(sink.frames)|], MemoryBody(p.address, Read(target.image, p.address, p.length))))
    }

    /** READ_MEMORY: the peer sees the program image, never a patch. */
    method OpReadMemory(id: nat, payload: Payload) returns (st: Status)
      requires Valid() && !transportDead && attached
      modifies this`state, this`transportDead, sink, scratch, target`mem, target`image, target`pc, target`trace, target`answer,
               target`halted, target`resumes
      ensures Valid() && Answered(old(sink.frames), sink.frames, OP_READ_MEMORY, id, st, transportDead)
      ensures old(target.halted) ==> target.mem == old(target.mem) && target.image == old(target.image)
      ensures Quiet(old(target.trace), target.trace) && target.resumes == old(target.resumes)
      ensures state == old(state) || state.LOST?
      ensures Spared(bps.Entries(), old(target.image), target.image)
      ensures ReadMemoryDone(payload, st)
      ensures ReadsImage(payload, st, old(Now()), Now())
    {
      hide StopsOrdered, StopsBelow, TableOk, Tracks, Disciplined, HaltKnown, Resumes, ImageAfter, ProgramRan, Read;
      st := CheckRead(payload);
      if !st.STATUS_OK? {
        SendResponse(OP_READ_MEMORY, id, st);
        return;
      }
      var e := FetchImage(payload.address, payload.length);
      if !e.OK? {
        st := SendBackendFailure(OP_READ_MEMORY, id, e, STATUS_ADDRESS_ERROR);
        return;
      }
      var base := HEADER_SIZE + READ_RESPONSE_SIZE;
      var _ := FinishFrame(Response(OP_READ_MEMORY, id, st,
                                    MemoryBody(payload.address, scratch[base..base + payload.length])));
    }

    /** Reads target memory into the frame under construction, with every patch replaced by what it hides. */
    method FetchImage(addr: nat, size: nat) returns (e: Err)
      requires Valid() && HEADER_SIZE + READ_RESPONSE_SIZE + size <= MAX_FRAME_SIZE
      modifies scratch, target`mem, target`image, target`pc, target`trace, target`answer, target`halted, target`resumes
      ensures Valid()
      ensures e.OK? ==> var base := HEADER_SIZE + READ_RESPONSE_SIZE;
                        scratch[base..base + size] == Read(target.image, addr, size)
      ensures old(target.halted) ==> target.mem == old(target.mem) && target.image == old(target.image)
      ensures Quiet(old(target.trace), target.trace) && target.resumes == old(target.resumes)
      ensures target.trace == old(target.trace) + [MemoryRead(e.OK?, bps.Entries(), target.image)]
      ensures Spared(bps.Entries(), old(target.image), target.image)
      ensures target.answer == e
    {
      hide StopsOrdered, StopsBelow, TableOk, Tracks, Disciplined, HaltKnown, Resumes, ImageAfter, ProgramRan, Read;
      var base := HEADER_SIZE + READ_RESPONSE_SIZE;
      var data;
      ghost var m, i, was := target.mem, target.image, target.halted;
      e, data := target.ReadMem(addr, size, bps.Entries());
      RestedOrRan(was, bps.Entries(), m, i, target.mem, target.image);
      if e.OK? {
        StoreAt(scratch, base, data);
        assert scratch[base..base + size] == data;
        bps.SubstituteRead(scratch, base, addr, size);
      }
    }

    method CheckRead(payload: Payload) returns (st: Status)
      requires maxTransfer <= MAX_MEMORY_TRANSFER
      ensures st.STATUS_OK? <==> MayRead(payload)
      ensures st == MemoryRefusal(payload, false)
    {
      if !payload.ReadMemoryRequest? {
        return STATUS_INVALID_ARGUMENT;
      }
      st := CheckAccess(payload.flags, payload.stopId);
      if !st.STATUS_OK? {
        return;
      }
      if payload.length == 0 || payload.length > maxTransfer ||
         payload.length > MAX_FRAME_SIZE - HEADER_SIZE - READ_RESPONSE_SIZE {
        return STATUS_INVALID_ARGUMENT;
      }
      st := ValidateMemoryAccess(regions, payload.address, payload.length, payload.flags, payload.width, false);
    }

    method CheckWrite(payload: Payload) returns (st: Status)
      ensures st.STATUS_OK? <==> MayWrite(payload)
      ensures st == MemoryRefusal(payload, true)
    {
      if !payload.WriteMemoryRequest? {
        return STATUS_INVALID_ARGUMENT;
      }
      if payload.flags.requireHalted == payload.flags.allowRunning || |payload.data| != payload.length {
        return STATUS_INVALID_ARGUMENT;
      }
      st := CheckAccess(payload.flags, payload.stopId);
      if !st.STATUS_OK? {
        return;
      }
      if payload.length == 0 || payload.length > maxTransfer {
        return STATUS_INVALID_ARGUMENT;
      }
      st := ValidateMemoryAccess(regions, payload.address, payload.length, payload.flags, payload.width, true);
    }

    /** WRITE_MEMORY: an admissible request makes one write of exactly its bytes, OK if that succeeds, and the shadows
        follow; no other touches anything; every armed patch stays armed. */
    twostate predicate WriteMemoryDone(p: Payload, st: Status)
      requires old(bps.count <= bps.slots.Length) && bps.count <= bps.slots.Length
      reads this, sink, target, bps, bps.slots
    {
      && (st.STATUS_OK? ==>
            && old(MayWrite(p)) && p.WriteMemoryRequest? && old(bps.Valid())
            && OverlappedTable(old(bps.Entries()), p.address, p.data, bps.Entries()))
      && (!st.STATUS_OK? ==> bps.Entries() == old(bps.Entries()))
      && PatchesKept(old(bps.Entries()), old(target.mem), target.mem)
      && (old(MayWrite(p)) ==>
            && p.WriteMemoryRequest?
            && ImageWritten(old(target.halted), st.STATUS_OK?, old(bps.Entries()), p.address, p.data,
                            old(target.mem), old(target.image), target.mem, target.image)
            && StoredForPeer(old(target.trace), target.trace, p.address, p.data, st.STATUS_OK?, old(bps.Entries()), target.image))
      && (old(MayWrite(p)) && !st.STATUS_OK? ==> FailedAs(target.answer, STATUS_ADDRESS_ERROR, st, old(state)))
      && (!old(MayWrite(p)) ==> st == old(MemoryRefusal(p, true)))
      && (!old(MayWrite(p)) ==> target.trace == old(target.trace) && target.mem == old(target.mem) && target.image == old(target.image))
    }

    /** WRITE_MEMORY: a plain write to the program image, under which every armed patch stays armed. */
    method OpWriteMemory(id: nat, payload: Payload) returns (st: Status)
      requires Valid() && !transportDead && attached
      modifies this`state, this`transportDead, sink, scratch, bps.slots, target`mem, target`image, target`pc,
               target`trace, target`answer, target`halted, target`resumes
      ensures Valid() && Answered(old(sink.frames), sink.frames, OP_WRITE_MEMORY, id, st, transportDead)
      ensures target.resumes == old(target.resumes)
      ensures state == old(state) || state.LOST?
      ensures WriteMemoryDone(payload, st)
      ensures StoresAsked(payload, st, old(target.trace), target.trace)
      ensures CallsBy(OP_WRITE_MEMORY, old(target.trace), target.trace)
    {
      hide StopsOrdered, StopsBelow, Tracks, TableOk, Disciplined, HaltKnown, Resumes, ImageAfter, ImageWritten, OverlappedTable;
      st := CheckWrite(payload);
      if !st.STATUS_OK? {
        SendResponse(OP_WRITE_MEMORY, id, st);
        return;
      }
      var e := StoreImage(payload.address, payload.data);
      if !e.OK? {
        st := SendBackendFailure(OP_WRITE_MEMORY, id, e, STATUS_ADDRESS_ERROR);
        return;
      }
      SendResponse(OP_WRITE_MEMORY, id, st);
    }

    /** Writes target memory for the peer: patched bytes keep their patch, and their shadows take the data. */
    method StoreImage(addr: nat, data: seq<byte>) returns (e: Err)
      requires Valid() && |data| <= MAX_MEMORY_TRANSFER
      modifies scratch, bps.slots, target`mem, target`image, target`pc, target`trace, target`answer, target`halted, target`resumes
      ensures Valid() && old(bps.Valid())
      ensures ImageWritten(old(target.halted), e.OK?, old(bps.Entries()), addr, data,
                           old(target.mem), old(target.image), target.mem, target.image)
      ensures if e.OK? then OverlappedTable(old(bps.Entries()), addr, data, bps.Entries()) else bps.Entries() == old(bps.Entries())
      ensures PatchesKept(old(bps.Entries()), old(target.mem), target.mem)
      ensures StoredForPeer(old(target.trace), target.trace, addr, data, e.OK?, old(bps.Entries()), target.image)
      ensures target.resumes == old(target.resumes)
      ensures target.answer == e
    {
      hide StopsOrdered, StopsBelow, Tracks, Disciplined, HaltKnown, Resumes, ImageAfter, ProgramRan, PeerWrote, PeerStored, StoredImage,
           OverlappedTable, Same, Write, ImageWritten;
      ghost var es, m, i := bps.Entries(), target.mem, target.image;
      bps.BuildWriteImage(scratch, addr, data);
      var stored := scratch[..|data|];
      StoredPlain(es, addr, data, stored);
      e := target.WriteMem(addr, stored, data, bps.Entries());
      PeerWroteImage(es, addr, data, stored, e.OK?, m, i, target.mem, target.image, target.halted);
      if !e.OK? {
        PeerWroteTracks(es, addr, data, stored, es, false, m, i, target.mem, target.image, target.halted);
        return;
      }
      bps.WriteOverlap(addr, data);
      OverlappedOk(es, addr, data, bps.Entries());
      PeerWroteTracks(es, addr, data, stored, bps.Entries(), true, m, i, target.mem, target.image, target.halted);
    }

    /** READ_REGISTERS: OK exactly if the request is admissible and its one read is usable, and then the answer is
        what was read, with the program counter the peer must see. */
    twostate predicate ReadRegistersDone(p: Payload, st: Status)
      reads this, sink, target
    {
      && (if old(MayReadRegisters(p)) then
            && target.trace != [] && target.trace == old(target.trace) + [Last(target.trace)] && Last(target.trace).RegistersRead?
            && (st.STATUS_OK? <==> Last(target.trace).usable)
            && (!st.STATUS_OK? ==>
                  FailedAs(target.answer, STATUS_SWD_ERROR, st, old(state)) || (target.answer.OK? && st.STATUS_SWD_ERROR? && state == old(state)))
          else
            && target.trace == old(target.trace)
            && if p.ReadRegistersRequest? && p.coreId == 0 && p.stopId != old(stopId) then st.STATUS_STALE_STOP? else st.STATUS_INVALID_ARGUMENT?)
      && (st.STATUS_OK? && |sink.frames| > |old(sink.frames)| ==>
            var f := sink.frames[|old(sink.frames)|];
            f.Response? && ShowsPc(f.body) && (stepOverPending ==> stepOverAddress <= UINT32_MAX)
            && f.body.registers == Shown(Last(target.trace).blob))
    }

    /** READ_REGISTERS: the program counter the peer reads is the logical one. */
    method OpReadRegisters(id: nat, payload: Payload) returns (st: Status)
      requires Valid() && !transportDead && state.HALTED?
      modifies this`state, this`transportDead, sink, scratch, target`trace, target`answer, target`halted, target`resumes
      ensures Valid() && Answered(old(sink.frames), sink.frames, OP_READ_REGISTERS, id, st, transportDead)
      ensures Quiet(old(target.trace), target.trace) && target.resumes == old(target.resumes)
      ensures state == old(state) || state.LOST?
      ensures ReadRegistersDone(payload, st)
    {
      hide StopsOrdered, StopsBelow, Tracks, TableOk, Disciplined, HaltKnown, Resumes, ImageAfter, Parse, Visible, First, Normalized;
      st := CheckRegisterRead(payload);
      if !st.STATUS_OK? {
        SendResponse(OP_READ_REGISTERS, id, st);
        return;
      }
      var e, size := FetchRegisters();
      if !e.OK? {
        st := SendBackendFailure(OP_READ_REGISTERS, id, e, STATUS_SWD_ERROR);
        return;
      }
      if size > MAX_FRAME_SIZE - HEADER_SIZE - REGISTERS_RESPONSE_SIZE {
        st := STATUS_SWD_ERROR;
        SendResponse(OP_READ_REGISTERS, id, st);
        return;
      }
      var base := HEADER_SIZE + REGISTERS_RESPONSE_SIZE;
      var blob := scratch[base..base + size];
      var count := CountEntries(blob);
      var _ := FinishFrame(Response(OP_READ_REGISTERS, id, st, RegistersBody(stopId, count, blob)));
    }

    /** Reads the registers into the frame under construction, with the program counter the peer must see. */
    method FetchRegisters() returns (e: Err, size: nat)
      requires Valid() && state.HALTED?
      modifies scratch, target`trace, target`answer, target`halted, target`resumes
      ensures Valid()
      ensures var base := HEADER_SIZE + REGISTERS_RESPONSE_SIZE;
              e.OK? && base + size <= MAX_FRAME_SIZE ==>
                var seen := Visible(Parse(scratch[base..base + size]), ARM_REG_PC);
                seen == -1 || seen == ShownPc()
      ensures Quiet(old(target.trace), target.trace) && target.resumes == old(target.resumes)
      ensures target.trace != [] && target.trace == old(target.trace) + [Last(target.trace)]
      ensures var base, c := HEADER_SIZE + REGISTERS_RESPONSE_SIZE, Last(target.trace);
              && c.RegistersRead? && (c.usable <==> e.OK? && base + size <= MAX_FRAME_SIZE)
              && (c.usable ==> scratch[base..base + size] == Shown(c.blob))
      ensures target.answer == e
    {
      hide StopsOrdered, StopsBelow, Tracks, TableOk, Disciplined, HaltKnown, Resumes, ImageAfter, Parse, Visible, First, Normalized;
      var base := HEADER_SIZE + REGISTERS_RESPONSE_SIZE;
      e, size := target.ReadRegs(scratch, base, MAX_FRAME_SIZE - base);
      if e.OK? && base + size <= MAX_FRAME_SIZE {
        NormalizePcInBlob(scratch, base, size);
      }
    }

    /** A register blob of the backend as the peer is shown it. */
    ghost function Shown(blob: seq<byte>): seq<byte>
      requires stepOverPending ==> stepOverAddress <= UINT32_MAX
      reads this`stepOverPending, this`stepOverAddress
    {
      if stepOverPending then Normalized(blob, U32Bytes(stepOverAddress)) else blob
    }

    ghost predicate ShowsPc(body: Body)
      reads this, target
    {
      && body.RegistersBody? && body.stopId == stopId && body.count == |Parse(body.registers)|
      && (Visible(Parse(body.registers), ARM_REG_PC) == -1 ||
          (Visible(Parse(body.registers), ARM_REG_PC) == ShownPc() &&
           (pcCertain ==> Visible(Parse(body.registers), ARM_REG_PC) == logicalPc)))
    }

    method CheckRegisterRead(payload: Payload) returns (st: Status)
      ensures st.STATUS_OK? <==> MayReadRegisters(payload)
      ensures st.STATUS_STALE_STOP? <==> payload.ReadRegistersRequest? && payload.coreId == 0 && payload.stopId != stopId
      ensures st.STATUS_OK? || st.STATUS_STALE_STOP? || st.STATUS_INVALID_ARGUMENT?
    {
      if !payload.ReadRegistersRequest? || payload.coreId != 0 {
        return STATUS_INVALID_ARGUMENT;
      }
      if payload.stopId != stopId {
        return STATUS_STALE_STOP;
      }
      st := if |payload.ids| > MAX_REGISTER_IDS then STATUS_INVALID_ARGUMENT else STATUS_OK;
    }

    /** WRITE_REGISTERS: an admissible list is written as it is, OK if that succeeds, and the logical program counter
        follows; no other is written. */
    twostate predicate WriteRegistersDone(p: Payload, st: Status)
      reads this, target
    {
      && (st.STATUS_OK? ==> old(MayWriteRegisters(p)) && p.WriteRegistersRequest? && PcFollowed(PcWrites(Parse(p.registers))))
      && (old(MayWriteRegisters(p)) && !st.STATUS_OK? ==> FailedAs(target.answer, STATUS_SWD_ERROR, st, old(state)))
      && (!old(MayWriteRegisters(p)) ==>
            if p.WriteRegistersRequest? && p.stopId != old(stopId) then st.STATUS_STALE_STOP? else st.STATUS_INVALID_ARGUMENT?)
      && (!st.STATUS_OK? ==>
            logicalPc == old(logicalPc) && stepOverPending == old(stepOverPending) && stepOverAddress == old(stepOverAddress))
      && target.trace == if old(MayWriteRegisters(p)) then old(target.trace) + [RegistersWritten(p.registers, st.STATUS_OK?)] else old(target.trace)
    }

    /** WRITE_REGISTERS: a program counter the peer writes becomes the logical one, and cancels a
        pending step-over exactly when it points elsewhere. */
    method OpWriteRegisters(id: nat, payload: Payload) returns (st: Status)
      requires Valid() && !transportDead && state.HALTED?
      modifies this`state, this`transportDead, this`stepOverPending, this`stepOverAddress, this`logicalPc, this`pcCertain,
               sink, target`pc, target`trace, target`answer, target`halted, target`resumes
      ensures Valid() && Answered(old(sink.frames), sink.frames, OP_WRITE_REGISTERS, id, st, transportDead)
      ensures Quiet(old(target.trace), target.trace) && target.resumes == old(target.resumes)
      ensures state == old(state) || state.LOST?
      ensures WriteRegistersDone(payload, st)
    {
      hide StopsOrdered, StopsBelow, Tracks, TableOk, Disciplined, HaltKnown, Resumes, ImageAfter, Parse, Visible, First, Offset, PcWrites, WriteList;
      st := CheckRegisterWrite(payload);
      if !st.STATUS_OK? {
        SendResponse(OP_WRITE_REGISTERS, id, st);
        return;
      }
      var e := StoreRegisters(payload.registers);
      if !e.OK? {
        st := SendBackendFailure(OP_WRITE_REGISTERS, id, e, STATUS_SWD_ERROR);
        return;
      }
      SendResponse(OP_WRITE_REGISTERS, id, st);
    }

    /** Sends a framed register list to the target and follows the program counter it writes. A
        failed write may have moved the core, unless a pending step-over overrides where it is. */
    method StoreRegisters(registers: seq<byte>) returns (e: Err)
      requires Valid() && state.HALTED?
      modifies this`stepOverPending, this`stepOverAddress, this`logicalPc, this`pcCertain,
               target`pc, target`trace, target`answer, target`halted, target`resumes
      ensures Valid()
      ensures !e.OK? ==> logicalPc == old(logicalPc) && stepOverPending == old(stepOverPending) && stepOverAddress == old(stepOverAddress)
      ensures e.OK? ==> PcFollowed(PcWrites(Parse(registers)))
      ensures Quiet(old(target.trace), target.trace) && target.resumes == old(target.resumes)
      ensures target.trace == old(target.trace) + [RegistersWritten(registers, e.OK?)]
      ensures target.answer == e
    {
      hide StopsOrdered, StopsBelow, Tracks, TableOk, Disciplined, HaltKnown, Resumes, ImageAfter, Parse, Visible, First, Offset, PcWrites;
      ghost var ws := PcWrites(Parse(registers));
      e := target.WriteRegs(registers);
      assert bps.Valid();
      if !e.OK? {
        pcCertain := pcCertain && (stepOverPending || ws == []);
        return;
      }
      UpdateStepOver(registers);
      if ws != [] {
        logicalPc, pcCertain := ws[0], true;
      }
    }

    /** What a register write does to the program counter the peer sees: `ws` are the values written to it. */
    twostate predicate PcFollowed(new ws: seq<u32>)
      reads this
    {
      && |ws| <= 1
      && (ws == [] ==> logicalPc == old(logicalPc) && pcCertain == old(pcCertain)
                       && stepOverPending == old(stepOverPending) && stepOverAddress == old(stepOverAddress))
      && (ws != [] ==> logicalPc == ws[0] && pcCertain
                       && stepOverPending == (old(stepOverPending) && ws[0] == old(stepOverAddress)))
    }

    method CheckRegisterWrite(payload: Payload) returns (st: Status)
      ensures st.STATUS_OK? <==> MayWriteRegisters(payload)
      ensures st.STATUS_STALE_STOP? <==> payload.WriteRegistersRequest? && payload.stopId != stopId
      ensures st.STATUS_OK? || st.STATUS_STALE_STOP? || st.STATUS_INVALID_ARGUMENT?
    {
      if !payload.WriteRegistersRequest? {
        return STATUS_INVALID_ARGUMENT;
      }
      if payload.stopId != stopId {
        return STATUS_STALE_STOP;
      }
      if payload.coreId != 0 || payload.count == 0 {
        return STATUS_INVALID_ARGUMENT;
      }
      var framed := ValidateWriteList(payload.registers, payload.count);
      st := if framed then STATUS_OK else STATUS_INVALID_ARGUMENT;
    }

    /** Forgets the pending step-over once the peer has moved the program counter elsewhere. */
    method UpdateStepOver(registers: seq<byte>)
      requires |PcWrites(Parse(registers))| <= 1
      modifies this`stepOverPending, this`stepOverAddress
      ensures var ws := PcWrites(Parse(registers));
              var moved := ws != [] && ws[0] != old(stepOverAddress);
              && stepOverPending == (old(stepOverPending) && !moved)
              && stepOverAddress == if old(stepOverPending) && moved then 0 else old(stepOverAddress)
    {
      hide Parse, Visible, First, Offset, PcWrites;
      if !stepOverPending {
        return;
      }
      SingleWriteVisible(Parse(registers));
      OffsetVisible(registers, 0, ARM_REG_PC);
      var found, at := FindEntry(registers, ARM_REG_PC);
      if found {
        var pc := U32(EntryAt(registers, at).value);
        if pc != stepOverAddress {
          stepOverPending, stepOverAddress := false, 0;
        }
      }
    }

    // ---- HALT and reset ----------------------------------------------------------------------------

    /** The stop generation has wrapped during a request. */
    twostate predicate Wraps()
      reads this
    {
      old(stopId) > 0 && stopId == 0
    }

    /** Because of the wrap, a request was answered after the event it caused. */
    twostate predicate AnsweredLate(opcode: Opcode, id: nat, st: Status)
      reads this, sink
    {
      !transportDead ==>
        && sink.frames == old(sink.frames) + WrapFrames(opcode, id, st)
        && !Answered(old(sink.frames), sink.frames, opcode, id, st, false)
    }

    /** HALT: OK exactly if the one halt succeeds, and then the stop is reported under the next generation; a stop
        that is held is reported under its own, and one that was reported is left alone. */
    twostate predicate HaltDone(p: Payload, st: Status, stop: StopDetect)
      requires Wired() && pending.registersSize + pending.stackSize <= SNAPSHOT_CAPACITY
      requires old(bps.count <= bps.slots.Length) && bps.count <= bps.slots.Length
      reads this, sink, target, bps, bps.slots, pendingRegisters
    {
      && (!p.Empty? ==> st.STATUS_INVALID_ARGUMENT? && target.trace == old(target.trace))
      && (p.Empty? && old(state).HALTED? ==> st == if old(stopReported) then STATUS_TARGET_HALTED else STATUS_OK)
      && (old(state).HALTED? ==> target.image == old(target.image) && target.trace == old(target.trace) && stopId == old(stopId))
      && (p.Empty? && old(state).RUNNING? ==>
            |target.trace| > |old(target.trace)| && HaltedFirst(target.trace[|old(target.trace)|], st.STATUS_OK?))
      && (p.Empty? && old(state).RUNNING? && !st.STATUS_OK? ==> FailedAs(target.answer, STATUS_TIMEOUT, st, RUNNING))
      && (st.STATUS_OK? && (old(stopId) < UINT32_MAX || old(state).HALTED?) ==> state.HALTED?)
      && (st.STATUS_OK? && state.HALTED? ==>
            && stopId == (if old(state).RUNNING? then old(stopId) + 1 else old(stopId))
            && (!transportDead ==> |sink.frames| == |old(sink.frames)| + 2 && StoppedFrame(sink.frames[|old(sink.frames)| + 1])))
      && (st.STATUS_OK? && old(state).RUNNING? && state.HALTED? ==>
            && target.halted && stop.pc == target.pc && bps.Entries() == old(bps.Entries())
            && (!transportDead ==>
                  && Tells(sink.frames[|old(sink.frames)| + 1], stop, bps.Entries(), old(run))
                  && Snapped(sink.frames[|old(sink.frames)| + 1])))
    }

    /** HALT: the response precedes the STOPPED event, except when the stop generation wraps; then
        TARGET_LOST comes first. A stop captured but not yet reported is delivered under its own
        generation. */
    method OpHalt(id: nat, payload: Payload) returns (st: Status, ghost stop: StopDetect)
      requires Core() && Held() && !transportDead && (state.HALTED? || state.RUNNING?)
      modifies this`state, this`stopId, this`stopReported, this`pending, this`run, this`stepOverPending,
               this`stepOverAddress, this`logicalPc, this`pcCertain, this`wrapped, this`transportDead, sink,
               target`mem, target`image, target`pc, target`trace, target`answer, target`halted, target`resumes, pendingRegisters
      ensures Core() && (old(Valid()) || st.STATUS_OK? ==> Valid())
      ensures AnsweredOnce(old(sink.frames), sink.frames, OP_HALT, id, transportDead)
      ensures Wraps() <==> st.STATUS_OK? && old(stopId) + Generations(OP_HALT, old(state)) > UINT32_MAX
      ensures !Wraps() ==> Answered(old(sink.frames), sink.frames, OP_HALT, id, st, transportDead)
      ensures Wraps() ==> state.LOST? && AnsweredLate(OP_HALT, id, st)
      ensures Quiet(old(target.trace), target.trace) && target.resumes == old(target.resumes)
      ensures !state.DETACHED?
      ensures Spared(bps.Entries(), old(target.image), target.image) && (old(target.halted) ==> target.image == old(target.image))
      ensures HaltDone(payload, st, stop)
      ensures old(state).HALTED? ==> target.image == old(target.image)
    {
      hide StopsOrdered, StopsBelow, Tracks, TableOk, Disciplined, HaltKnown, Resumes, ImageAfter, Parse, Visible, First, Classify, ProgramRan, RepliesIn, Answered, AnsweredLate, Tells, Snapped;
      stop := NO_STOP;
      if !payload.Empty? {
        st := STATUS_INVALID_ARGUMENT;
        SendResponse(OP_HALT, id, st);
        Replied(old(sink.frames), sink.frames, OP_HALT, id, st, NoBody, transportDead);
      } else if state.HALTED? && stopReported {
        st := STATUS_TARGET_HALTED;
        SendResponse(OP_HALT, id, st);
        Replied(old(sink.frames), sink.frames, OP_HALT, id, st, NoBody, transportDead);
      } else if state.HALTED? {
        st := STATUS_OK;
        AnswerAndReport(OP_HALT, id);
      } else {
        st, stop := HaltTarget(id);
      }
    }

    /** Answers a request with success, and then reports the stop that is still to be reported. */
    method AnswerAndReport(opcode: Opcode, id: nat)
      requires Core() && Held() && attached && !state.DETACHED?
      modifies this`transportDead, this`stopReported, sink
      ensures Valid()
      ensures old(transportDead) ==> transportDead && sink.frames == old(sink.frames)
      ensures !old(transportDead) ==> AnsweredOnce(old(sink.frames), sink.frames, opcode, id, transportDead)
      ensures !old(transportDead) ==> Answered(old(sink.frames), sink.frames, opcode, id, STATUS_OK, transportDead)
      ensures state.HALTED? && !old(stopReported) && !transportDead ==>
                |sink.frames| == |old(sink.frames)| + 2 && StoppedFrame(sink.frames[|old(sink.frames)| + 1])
      ensures !old(transportDead) && !state.HALTED? ==>
                sink.frames == if transportDead then old(sink.frames) else old(sink.frames) + [Response(opcode, id, STATUS_OK, NoBody)]
    {
      hide StopsOrdered, StopsBelow, Tracks, TableOk, Disciplined, HaltKnown, Resumes, ImageAfter, Parse, Visible, First, RepliesIn;
      SendResponse(opcode, id, STATUS_OK);
      ghost var answered, silent := sink.frames, transportDead;
      EmitPendingStopped();
      if !old(transportDead) {
        RepliedThenEvents(old(sink.frames), answered, sink.frames, opcode, id, STATUS_OK, silent, transportDead);
      }
    }

    /** Halts a running target and reports the stop. */
    method HaltTarget(id: nat) returns (st: Status, ghost stop: StopDetect)
      requires Core() && !transportDead && state.RUNNING?
      modifies this`state, this`stopId, this`stopReported, this`pending, this`run, this`stepOverPending,
               this`stepOverAddress, this`logicalPc, this`pcCertain, this`wrapped, this`transportDead, sink,
               target`mem, target`image, target`pc, target`trace, target`answer, target`halted, target`resumes, pendingRegisters
      ensures Valid()
      ensures AnsweredOnce(old(sink.frames), sink.frames, OP_HALT, id, transportDead)
      ensures Wraps() <==> st.STATUS_OK? && old(stopId) == UINT32_MAX
      ensures !Wraps() ==> Answered(old(sink.frames), sink.frames, OP_HALT, id, st, transportDead)
      ensures Wraps() ==> state.LOST? && AnsweredLate(OP_HALT, id, st)
      ensures st.STATUS_OK? && old(stopId) < UINT32_MAX ==> state.HALTED?
      ensures st.STATUS_OK? && state.HALTED? ==> stopId == old(stopId) + 1
      ensures st.STATUS_OK? && state.HALTED? && !transportDead ==>
                |sink.frames| == |old(sink.frames)| + 2 && StoppedFrame(sink.frames[|old(sink.frames)| + 1])
      ensures st.STATUS_OK? && state.HALTED? ==>
                && target.halted && stop.pc == target.pc && bps.Entries() == old(bps.Entries())
                && (!transportDead ==> Tells(sink.frames[|old(sink.frames)| + 1], stop, bps.Entries(), old(run)) && Snapped(sink.frames[|old(sink.frames)| + 1]))
      ensures Quiet(old(target.trace), target.trace) && target.resumes == old(target.resumes)
      ensures !state.DETACHED?
      ensures |target.trace| > |old(target.trace)| && HaltedFirst(target.trace[|old(target.trace)|], st.STATUS_OK?)
      ensures Spared(bps.Entries(), old(target.image), target.image) && (old(target.halted) ==> target.image == old(target.image))
      ensures !st.STATUS_OK? ==> FailedAs(target.answer, STATUS_TIMEOUT, st, RUNNING)
    {
      hide StopsOrdered, StopsBelow, Tracks, TableOk, Disciplined, HaltKnown, Resumes, ImageAfter, Parse, Visible, First, Classify, ProgramRan, RepliesIn,
           Core, Sound, HitsLocated, HitsNamed, LocatedBy, ExplainedBy, PendingShows, PendingSnapped, StoppedFrame, Spared, Answered, AnsweredOnce,
           Keeps, Tells, Snapped;
      Connected();
      var e, seen := HaltNow();
      stop := seen;
      if !e.OK? {
        st := SendBackendFailure(OP_HALT, id, e, STATUS_TIMEOUT);
        AnsweredMeansOnce(old(sink.frames), sink.frames, OP_HALT, id, st, transportDead);
        return;
      }
      EnterHalted(seen);
      ghost var mid := sink.frames;
      st := STATUS_OK;
      AnswerAndReport(OP_HALT, id);
      if state.HALTED? && !transportDead {
        ToldHere(sink.frames[|old(sink.frames)| + 1], stop, old(run));
        SnappedHere(sink.frames[|old(sink.frames)| + 1]);
      }
      LateAnswer(old(sink.frames), mid, sink.frames, OP_HALT, id, transportDead);
      WrapIsLate(old(sink.frames), OP_HALT, id, st);
    }

    /** Enters HALTED for a stop the peer did not ask for, and reports it. */
    method ReportStop(stop: StopDetect)
      requires Core() && attached && !state.LOST? && target.halted && stop.pc == target.pc
      modifies this`state, this`stopId, this`stopReported, this`pending, this`run, this`stepOverPending,
               this`stepOverAddress, this`logicalPc, this`pcCertain, this`wrapped, this`transportDead, sink,
               target`mem, target`image, target`pc, target`trace, target`answer, target`halted, target`resumes, pendingRegisters
      ensures Valid() && EventsSince(old(sink.frames), sink.frames)
      ensures old(transportDead) ==> transportDead && sink.frames == old(sink.frames)
      ensures target.image == old(target.image) && Quiet(old(target.trace), target.trace) && target.resumes == old(target.resumes)
      ensures old(stopId) < UINT32_MAX ==> wrapped == old(wrapped)
      ensures state.HALTED? || (state.LOST? && old(stopId) == UINT32_MAX)
      ensures state.HALTED? ==>
                && stopId == old(stopId) + 1
                && (!transportDead ==> |sink.frames| == |old(sink.frames)| + 1 && StoppedFrame(sink.frames[|old(sink.frames)|]))
                && (!transportDead ==> Tells(sink.frames[|old(sink.frames)|], stop, bps.Entries(), old(run)) && Snapped(sink.frames[|old(sink.frames)|]))
      ensures target.halted && target.pc == old(target.pc) && bps.Entries() == old(bps.Entries())
      ensures state.LOST? ==> if transportDead then sink.frames == old(sink.frames) else LossSent(old(sink.frames), sink.frames)
    {
      hide StopsOrdered, StopsBelow, Tracks, TableOk, Disciplined, HaltKnown, Resumes, ImageAfter, Parse, Visible, First, Classify, ProgramRan,
           Keeps, Tells, PendingSnapped, Snapped;
      EnterHalted(stop);
      EmitPendingStopped();
      if state.HALTED? && !transportDead {
        ToldFollows(sink.frames[|old(sink.frames)|], stop, old(run));
        SnappedFollows(sink.frames[|old(sink.frames)|]);
      }
    }

    /** What one observation of a running target leads to. */
    ghost predicate PolledFirst(c: Call, generation: u32)
      reads this
    {
      && c.Polled?
      && (if c.halted then state.HALTED? || (state.LOST? && generation == UINT32_MAX) else if c.ok then state.RUNNING? else state.LOST?)
    }

    /** Observes the target once: a halt is reported, a failed observation gives the target up. */
    method PollOnce() returns (ghost stop: StopDetect)
      requires Core() && state.RUNNING?
      modifies this`state, this`stopId, this`stopReported, this`pending, this`run, this`stepOverPending,
               this`stepOverAddress, this`logicalPc, this`pcCertain, this`wrapped, this`transportDead, sink,
               target`mem, target`image, target`pc, target`trace, target`answer, target`halted, target`resumes, pendingRegisters
      ensures Valid() && !state.DETACHED? && EventsSince(old(sink.frames), sink.frames)
      ensures old(transportDead) ==> transportDead && sink.frames == old(sink.frames)
      ensures Quiet(old(target.trace), target.trace) && target.resumes == old(target.resumes)
      ensures state.HALTED? ==>
                && stopId == old(stopId) + 1
                && (!transportDead ==> |sink.frames| == |old(sink.frames)| + 1 && StoppedFrame(sink.frames[|old(sink.frames)|]))
                && target.halted && stop.pc == target.pc && bps.Entries() == old(bps.Entries())
                && (!transportDead ==> Tells(sink.frames[|old(sink.frames)|], stop, bps.Entries(), old(run)) && Snapped(sink.frames[|old(sink.frames)|]))
      ensures state.RUNNING? ==> sink.frames == old(sink.frames) && stopId == old(stopId) && transportDead == old(transportDead)
      ensures state.RUNNING? ==> run == old(run)
      ensures |target.trace| > |old(target.trace)| && PolledFirst(target.trace[|old(target.trace)|], old(stopId))
      ensures Spared(bps.Entries(), old(target.image), target.image) && (old(target.halted) ==> target.image == old(target.image))
      ensures state.LOST? ==> if transportDead then sink.frames == old(sink.frames) else LossSent(old(sink.frames), sink.frames)
      ensures state.LOST? && !transportDead && !target.trace[|old(target.trace)|].ok ==>
                sink.frames == old(sink.frames) + [TargetLost(if target.answer.TIMEOUT? then LOST_TIMEOUT else LOST_SWD_FAULT)]
    {
      hide StopsOrdered, StopsBelow, Tracks, TableOk, Disciplined, HaltKnown, Resumes, ImageAfter, Parse, Visible, First, Classify, ProgramRan,
           Tells, Snapped;
      var e, seen := PollNow();
      stop := seen;
      if !e.OK? {
        EnterLost(LossOf(e));
      } else if seen.halted {
        ReportStop(seen);
      }
    }

    /** Brings the target to a halt with no debug resource left in it. */
    method PrepareReset(opcode: Opcode, id: nat) returns (ready: bool, st: Status)
      requires Valid() && !transportDead && (state.HALTED? || state.RUNNING?)
      modifies this`state, this`stopId, this`stopReported, this`pending, this`run, this`stepOverPending,
               this`stepOverAddress, this`logicalPc, this`pcCertain, this`wrapped, this`transportDead, sink,
               bps`count, bps.slots, target`mem, target`image, target`pc, target`trace, target`answer, target`halted, target`resumes,
               target`hw, target`wps, target`catchMask, pendingRegisters
      ensures Core() && attached
      ensures Quiet(old(target.trace), target.trace) && target.resumes == old(target.resumes)
      ensures ready ==> target.halted && Bare() && (state.HALTED? || state.LOST?) && EventsSince(old(sink.frames), sink.frames)
      ensures ready && (old(state).HALTED? || old(stopId) < UINT32_MAX) ==>
                && sink.frames == old(sink.frames) && !transportDead && state.HALTED?
                && stopId == if old(state).HALTED? then old(stopId) else old(stopId) + 1
      ensures !ready ==> Valid() && !st.STATUS_OK? && AnsweredOnce(old(sink.frames), sink.frames, opcode, id, transportDead)
      ensures !ready ==> state.LOST? || (state.RUNNING? && old(state).RUNNING?)
      ensures !state.DETACHED?
      ensures |target.trace| > |old(target.trace)|
      ensures Spared(old(bps.Entries()), old(target.image), target.image)
      ensures Wraps() ==> old(state).RUNNING? && old(stopId) == UINT32_MAX
      ensures ready && old(state).RUNNING? && old(stopId) == UINT32_MAX ==> Wraps()
      ensures !ready && !Wraps() ==> Answered(old(sink.frames), sink.frames, opcode, id, st, transportDead)
      ensures !ready && Wraps() ==> state.LOST? && AnsweredLate(opcode, id, st)
      ensures ready && Wraps() ==>
                state.LOST? && sink.frames == if transportDead then old(sink.frames) else old(sink.frames) + [TargetLost(LOST_TIMEOUT)]
      ensures !ready ==> Faulty(old(target.trace), target.trace) || Unconfirmed(old(target.trace), target.trace)
      ensures ready && old(state).HALTED? ==> !Wraps()
    {
      hide StopsOrdered, StopsBelow, Tracks, TableOk, Disciplined, HaltKnown, Resumes, ImageAfter, Parse, Visible, First, Classify, ProgramRan,
           RepliesIn, Unrestored, Restored, Faulty;
      ready, st := true, STATUS_OK;
      if !state.HALTED? {
        ready, st := HaltFirst(opcode, id);
        if !ready {
          return;
        }
      }
      ghost var mid, halting := sink.frames, target.trace;
      ready, st := StripConfig(opcode, id);
      if !ready {
        FaultyOn(old(target.trace), halting, target.trace);
        LateAnswer(old(sink.frames), mid, sink.frames, opcode, id, transportDead);
        WrapIsLate(old(sink.frames), opcode, id, st);
      }
    }

    /** Halts a running target ahead of a reset, under a generation of its own. */
    method HaltFirst(opcode: Opcode, id: nat) returns (ok: bool, st: Status)
      requires Core() && !transportDead && state.RUNNING?
      modifies this`state, this`stopId, this`stopReported, this`pending, this`run, this`stepOverPending,
               this`stepOverAddress, this`logicalPc, this`pcCertain, this`wrapped, this`transportDead, sink,
               target`mem, target`image, target`pc, target`trace, target`answer, target`halted, target`resumes, pendingRegisters
      ensures Core() && attached && !state.DETACHED?
      ensures Quiet(old(target.trace), target.trace) && target.resumes == old(target.resumes)
      ensures ok ==> target.halted && (state.HALTED? || state.LOST?) && EventsSince(old(sink.frames), sink.frames)
      ensures ok && old(stopId) < UINT32_MAX ==>
                sink.frames == old(sink.frames) && !transportDead && state.HALTED? && stopId == old(stopId) + 1
      ensures !ok ==> Valid() && !st.STATUS_OK? && (state.LOST? || state.RUNNING?)
      ensures !ok ==> AnsweredOnce(old(sink.frames), sink.frames, opcode, id, transportDead)
      ensures !ok ==> Answered(old(sink.frames), sink.frames, opcode, id, st, transportDead)
      ensures |target.trace| > |old(target.trace)|
      ensures Spared(bps.Entries(), old(target.image), target.image)
      ensures Wraps() <==> ok && old(stopId) == UINT32_MAX
      ensures Wraps() ==>
                state.LOST? && sink.frames == if transportDead then old(sink.frames) else old(sink.frames) + [TargetLost(LOST_TIMEOUT)]
      ensures !ok ==> Faulty(old(target.trace), target.trace) || Unconfirmed(old(target.trace), target.trace)
    {
      hide StopsOrdered, StopsBelow, Tracks, TableOk, Disciplined, HaltKnown, Resumes, ImageAfter, Parse, Visible, First, Classify, ProgramRan, RepliesIn, Faulty, Keeps, HitsLocated, HitsNamed, PendingShows, PendingSnapped, LocatedBy, ExplainedBy;
      ok, st := true, STATUS_OK;
      var e, stop := HaltNow();
      if !e.OK? || !stop.halted {
        ok := false;
        if !e.OK? {
          FaultyLast(old(target.trace), Last(target.trace));
        }
        st := SendBackendFailure(opcode, id, if e.OK? then TIMEOUT else e, STATUS_TIMEOUT);
        AnsweredMeansOnce(old(sink.frames), sink.frames, opcode, id, st, transportDead);
        return;
      }
      EnterHalted(stop);
    }

    /** Takes every debug resource out of a halted target, or gives the target up. */
    method StripConfig(opcode: Opcode, id: nat) returns (ready: bool, st: Status)
      requires Core() && attached && target.halted
      modifies this`state, this`run, this`transportDead, sink, bps`count, bps.slots,
               target`mem, target`trace, target`answer, target`halted, target`resumes, target`hw, target`wps, target`catchMask
      ensures Core()
      ensures Quiet(old(target.trace), target.trace) && target.resumes == old(target.resumes)
      ensures old(transportDead) ==> transportDead && sink.frames == old(sink.frames)
      ensures ready ==> target.halted && Bare() && sink.frames == old(sink.frames) && transportDead == old(transportDead)
                        && state == old(state)
      ensures !ready ==> state.LOST? && !st.STATUS_OK?
      ensures !ready && !old(transportDead) ==>
                && Answered(old(sink.frames), sink.frames, opcode, id, st, transportDead)
                && AnsweredOnce(old(sink.frames), sink.frames, opcode, id, transportDead)
      ensures |target.trace| > |old(target.trace)|
      ensures !ready && old(state).LOST? && !old(transportDead) ==>
                sink.frames == if transportDead then old(sink.frames) else old(sink.frames) + [Response(opcode, id, st, NoBody)]
      ensures !ready ==> st.STATUS_SWD_ERROR? && Faulty(old(target.trace), target.trace)
    {
      hide StopsOrdered, StopsBelow, Tracks, TableOk, Disciplined, HaltKnown, Resumes, ImageAfter, Unrestored, Restored, Faulty;
      st := STATUS_OK;
      ready := RollbackRunConfig();
      if !ready {
        st := STATUS_SWD_ERROR;
        SendResponse(opcode, id, st);
        ghost var answered, silent := sink.frames, transportDead;
        EnterLost(LOST_SWD_FAULT);
        RepliedThenEvents(old(sink.frames), answered, sink.frames, opcode, id, st, silent, transportDead);
      }
    }

    const RESET_SYSTEM: nat := 1
    const RESET_NRST: nat := 2

    method CheckReset(payload: Payload, capable: bool) returns (st: Status)
      ensures st.STATUS_OK? <==> MayReset(payload, capable)
      ensures st.STATUS_OK? || RefusedReset(payload, st)
    {
      if !payload.ResetRequest? || (payload.kind != RESET_SYSTEM && payload.kind != RESET_NRST) {
        return STATUS_INVALID_ARGUMENT;
      }
      st := if !capable || (payload.kind == RESET_SYSTEM && !caps.resetSystem) || (payload.kind == RESET_NRST && !caps.resetNrst)
      then STATUS_UNSUPPORTED else STATUS_OK;
    }

    /** Resets a bare target. A failure leaves it in an unknown state. */
    method ResetBare(opcode: Opcode, id: nat, haltAfter: bool) returns (e: Err, stop: StopDetect, st: Status)
      requires Core() && attached && Bare()
      modifies this`state, this`pcCertain, this`transportDead, sink, target`mem, target`image, target`pc, target`trace, target`answer,
               target`halted, target`resumes
      ensures Sound() && Bare() && target.resumes == old(target.resumes)
      ensures target.trace == old(target.trace) + [WasReset(haltAfter, e.OK?, target.image)]
      ensures e.OK? ==> st.STATUS_OK? && sink.frames == old(sink.frames) && transportDead == old(transportDead)
      ensures e.OK? ==> state == old(state) && !pcCertain
      ensures e.OK? && haltAfter ==> Core() && target.halted && stop.pc == target.pc
      ensures !e.OK? ==> state.LOST? && Valid() && !st.STATUS_OK?
      ensures old(transportDead) ==> transportDead && sink.frames == old(sink.frames)
      ensures !e.OK? && !old(transportDead) ==>
                && Answered(old(sink.frames), sink.frames, opcode, id, st, transportDead)
                && AnsweredOnce(old(sink.frames), sink.frames, opcode, id, transportDead)
      ensures !e.OK? && old(state).LOST? && !old(transportDead) ==>
                sink.frames == if transportDead then old(sink.frames) else old(sink.frames) + [Response(opcode, id, st, NoBody)]
    {
      hide StopsOrdered, StopsBelow, Disciplined, HaltKnown, Resumes, ImageAfter, Core, Sound, Valid, Bare, RepliesIn;
      e, stop := ResetNow(haltAfter);
      st := STATUS_OK;
      if !e.OK? {
        Grounded();
        st := if e.TIMEOUT? then STATUS_TIMEOUT else STATUS_SWD_ERROR;
        SendResponse(opcode, id, st);
        ghost var answered, silent := sink.frames, transportDead;
        Grounded();
        EnterLost(LossOf(e));
        RepliedThenEvents(old(sink.frames), answered, sink.frames, opcode, id, st, silent, transportDead);
      }
    }

    method ResetNow(haltAfter: bool) returns (e: Err, stop: StopDetect)
      requires Core() && attached && Bare()
      modifies this`pcCertain, target`mem, target`image, target`pc, target`trace, target`answer, target`halted, target`resumes
      ensures Sound() && Bare() && target.resumes == old(target.resumes) && !pcCertain
      ensures target.trace == old(target.trace) + [WasReset(haltAfter, e.OK?, target.image)]
      ensures e.OK? && haltAfter ==> Core() && target.halted && stop.pc == target.pc
    {
      hide StopsOrdered, StopsBelow, Disciplined, HaltKnown, Resumes, ImageAfter;
      e, stop := target.Reset(haltAfter);
      NothingTracked(target.mem, target.image);
      pcCertain := false;
    }

    /** RESET_HALT: OK means a reset that halted, a bare target, and a stop with reason RESET that continues the
        generations; an admissible request fails only if a call did. */
    twostate predicate ResetHaltDone(p: Payload, st: Status)
      requires Wired() && pending.registersSize + pending.stackSize <= SNAPSHOT_CAPACITY && bps.count <= bps.slots.Length
      reads this, sink, target, bps, bps.slots, pendingRegisters
    {
      && (target.trace == old(target.trace) <==> !old(MayReset(p, caps.resetHalt)))
      && (!old(MayReset(p, caps.resetHalt)) ==> RefusedReset(p, st))
      && (old(MayReset(p, caps.resetHalt)) && !st.STATUS_OK? ==>
            Faulty(old(target.trace), target.trace) || Unconfirmed(old(target.trace), target.trace))
      && (st.STATUS_OK? ==> exists i :: |old(target.trace)| <= i < |target.trace| && target.trace[i] == WasReset(true, true, target.image))
      && (st.STATUS_OK? && !Wraps() ==>
            && state.HALTED? && Bare() && !stepOverPending && pending.reason.STOP_RESET?
            && stopId == old(stopId) + (if old(state).HALTED? then 1 else 2)
            && (!transportDead ==> |sink.frames| == |old(sink.frames)| + 2 && StoppedFrame(sink.frames[|old(sink.frames)| + 1]))
            && (!transportDead ==> Snapped(sink.frames[|old(sink.frames)| + 1])))
    }

    /** RESET_HALT: the stop it reports continues the generations of the connection. */
    method OpResetHalt(id: nat, payload: Payload) returns (st: Status)
      requires Valid() && !transportDead && (state.HALTED? || state.RUNNING?)
      modifies this`state, this`stopId, this`stopReported, this`pending, this`run, this`stepOverPending,
               this`stepOverAddress, this`logicalPc, this`pcCertain, this`wrapped, this`transportDead, sink,
               bps`count, bps.slots, target`mem, target`image, target`pc, target`trace, target`answer, target`halted, target`resumes,
               target`hw, target`wps, target`catchMask, pendingRegisters
      ensures Valid() && AnsweredOnce(old(sink.frames), sink.frames, OP_RESET_HALT, id, transportDead)
      ensures Wraps() ==> old(stopId) + Generations(OP_RESET_HALT, old(state)) > UINT32_MAX
      ensures st.STATUS_OK? && old(stopId) + Generations(OP_RESET_HALT, old(state)) > UINT32_MAX ==> Wraps()
      ensures !Wraps() ==> Answered(old(sink.frames), sink.frames, OP_RESET_HALT, id, st, transportDead)
      ensures Wraps() ==> state.LOST? && AnsweredLate(OP_RESET_HALT, id, st)
      ensures target.resumes == old(target.resumes)
      ensures !state.DETACHED?
      ensures CallsBy(OP_RESET_HALT, old(target.trace), target.trace)
      ensures ResetHaltDone(payload, st)
    {
      hide StopsOrdered, StopsBelow, Tracks, TableOk, Disciplined, HaltKnown, Resumes, ImageAfter, Parse, Visible, First, Classify,
           RepliesIn, Answered, AnsweredOnce, EventsSince, Core, Sound, Valid, Bare, StoppedFrame, Harmless, Belongs, MayReset, Faulty, Snapped, RefusedReset;
      Settled();
      Grounded();
      st := CheckReset(payload, caps.resetHalt);
      if !st.STATUS_OK? {
        SendResponse(OP_RESET_HALT, id, st);
        Replied(old(sink.frames), sink.frames, OP_RESET_HALT, id, st, NoBody, transportDead);
        return;
      }
      st := ResetToHalt(id);
    }

    /** An admissible RESET_HALT. */
    method ResetToHalt(id: nat) returns (st: Status)
      requires Valid() && !transportDead && (state.HALTED? || state.RUNNING?)
      modifies this`state, this`stopId, this`stopReported, this`pending, this`run, this`stepOverPending,
               this`stepOverAddress, this`logicalPc, this`pcCertain, this`wrapped, this`transportDead, sink,
               bps`count, bps.slots, target`mem, target`image, target`pc, target`trace, target`answer, target`halted, target`resumes,
               target`hw, target`wps, target`catchMask, pendingRegisters
      ensures Valid() && AnsweredOnce(old(sink.frames), sink.frames, OP_RESET_HALT, id, transportDead)
      ensures Wraps() ==> old(stopId) + Generations(OP_RESET_HALT, old(state)) > UINT32_MAX
      ensures st.STATUS_OK? && old(stopId) + Generations(OP_RESET_HALT, old(state)) > UINT32_MAX ==> Wraps()
      ensures !Wraps() ==> Answered(old(sink.frames), sink.frames, OP_RESET_HALT, id, st, transportDead)
      ensures Wraps() ==> state.LOST? && AnsweredLate(OP_RESET_HALT, id, st)
      ensures target.resumes == old(target.resumes)
      ensures !state.DETACHED?
      ensures CallsBy(OP_RESET_HALT, old(target.trace), target.trace)
      ensures st.STATUS_OK? ==> exists i :: |old(target.trace)| <= i < |target.trace| && target.trace[i] == WasReset(true, true, target.image)
      ensures st.STATUS_OK? && !Wraps() ==>
                && state.HALTED? && Bare() && !stepOverPending && pending.reason.STOP_RESET?
                && stopId == old(stopId) + (if old(state).HALTED? then 1 else 2)
                && (!transportDead ==> |sink.frames| == |old(sink.frames)| + 2 && StoppedFrame(sink.frames[|old(sink.frames)| + 1]))
                && (!transportDead ==> Snapped(sink.frames[|old(sink.frames)| + 1]))
      ensures |target.trace| > |old(target.trace)|
      ensures !st.STATUS_OK? ==> Faulty(old(target.trace), target.trace) || Unconfirmed(old(target.trace), target.trace)
    {
      hide StopsOrdered, StopsBelow, Tracks, TableOk, Disciplined, HaltKnown, Resumes, ImageAfter, Parse, Visible, First, Classify,
           RepliesIn, Answered, AnsweredOnce, EventsSince, Core, Sound, Valid, Bare, StoppedFrame, Harmless, Belongs, MayReset, Faulty, Snapped;
      Settled();
      Grounded();
      var ready;
      ready, st := PrepareReset(OP_RESET_HALT, id);
      if ready {
        ghost var mid, bare := sink.frames, target.trace;
        st := ResetAndHold(id);
        if !st.STATUS_OK? {
          FaultyOn(old(target.trace), bare, target.trace);
        }
        LateAnswer(old(sink.frames), mid, sink.frames, OP_RESET_HALT, id, transportDead);
        WrapIsLate(old(sink.frames), OP_RESET_HALT, id, st);
      }
    }

    /** Resets a bare target and reports the halt behind the reset vector. */
    method ResetAndHold(id: nat) returns (st: Status)
      requires Core() && attached && Bare() && (state.HALTED? || state.LOST?)
      modifies this`state, this`stopId, this`stopReported, this`pending, this`run, this`stepOverPending,
               this`stepOverAddress, this`logicalPc, this`pcCertain, this`wrapped, this`transportDead, sink,
               target`mem, target`image, target`pc, target`trace, target`answer, target`halted, target`resumes, pendingRegisters
      ensures Valid() && target.resumes == old(target.resumes)
      ensures if old(transportDead) then transportDead && sink.frames == old(sink.frames)
              else AnsweredOnce(old(sink.frames), sink.frames, OP_RESET_HALT, id, transportDead)
      ensures Wraps() <==> st.STATUS_OK? && old(state).HALTED? && old(stopId) == UINT32_MAX
      ensures !old(transportDead) && !Wraps() ==>
                Answered(old(sink.frames), sink.frames, OP_RESET_HALT, id, st, transportDead)
      ensures Wraps() && !old(transportDead) ==> state.LOST? && AnsweredLate(OP_RESET_HALT, id, st)
      ensures old(state).LOST? ==> state.LOST? && stopId == old(stopId)
      ensures old(state).LOST? && !old(transportDead) ==>
                sink.frames == if transportDead then old(sink.frames) else old(sink.frames) + [Response(OP_RESET_HALT, id, st, NoBody)]
      ensures st.STATUS_OK? && old(state).HALTED? && old(stopId) < UINT32_MAX ==>
                && state.HALTED? && Bare() && !stepOverPending && pending.reason.STOP_RESET? && stopId == old(stopId) + 1
                && (!transportDead ==> |sink.frames| == |old(sink.frames)| + 2 && StoppedFrame(sink.frames[|old(sink.frames)| + 1]))
                && (!transportDead ==> Snapped(sink.frames[|old(sink.frames)| + 1]))
      ensures !state.DETACHED?
      ensures CallsBy(OP_RESET_HALT, old(target.trace), target.trace)
      ensures st.STATUS_OK? ==> |target.trace| > |old(target.trace)| && target.trace[|old(target.trace)|] == WasReset(true, true, target.image)
      ensures !st.STATUS_OK? ==> Faulty(old(target.trace), target.trace)
    {
      hide StopsOrdered, StopsBelow, Tracks, TableOk, Disciplined, HaltKnown, Resumes, ImageAfter, Parse, Visible, First, RepliesIn, Answered, PendingSnapped, Snapped, Faulty;
      var e, stop;
      e, stop, st := ResetBare(OP_RESET_HALT, id, true);
      if !e.OK? {
        FaultyLast(old(target.trace), Last(target.trace));
        return;
      }
      HoldReset(stop);
      ghost var mid := sink.frames;
      st := STATUS_OK;
      AnswerAndReport(OP_RESET_HALT, id);
      if state.HALTED? && !transportDead {
        SnappedHere(sink.frames[|old(sink.frames)| + 1]);
      }
      if !old(transportDead) {
        LateAnswer(old(sink.frames), mid, sink.frames, OP_RESET_HALT, id, transportDead);
        WrapIsLate(old(sink.frames), OP_RESET_HALT, id, st);
      }
    }

    /** Gives the pending stop another reason. */
    method Rename(reason: StopReason)
      requires Core() && Held()
      modifies this`pending
      ensures Core() && Held() && pending == old(pending).(reason := reason)
      ensures old(PendingSnapped()) ==> PendingSnapped()
    {
      hide StopsOrdered, StopsBelow, Tracks, TableOk, Disciplined, HaltKnown, Resumes, ImageAfter, SnapshotIs;
      pending := pending.(reason := reason);
    }

    /** The stop behind a reset. */
    method HoldReset(stop: StopDetect)
      requires Core() && attached && Bare() && (state.HALTED? || state.LOST?) && !pcCertain
      requires target.halted && stop.pc == target.pc
      modifies this`state, this`stopId, this`stopReported, this`pending, this`run, this`stepOverPending,
               this`stepOverAddress, this`logicalPc, this`pcCertain, this`wrapped, this`transportDead, sink,
               target`mem, target`image, target`pc, target`trace, target`answer, target`halted, target`resumes, pendingRegisters
      ensures Core() && Held() && target.resumes == old(target.resumes) && !state.DETACHED?
      ensures EventsSince(old(sink.frames), sink.frames) && target.image == old(target.image)
      ensures old(transportDead) ==> transportDead && sink.frames == old(sink.frames)
      ensures old(stopId) < UINT32_MAX ==> transportDead == old(transportDead) && sink.frames == old(sink.frames)
      ensures old(state).HALTED? && old(stopId) < UINT32_MAX ==>
                && state.HALTED? && Bare() && !stepOverPending && pending.reason.STOP_RESET?
                && !stopReported && stopId == old(stopId) + 1 && PendingSnapped()
      ensures Quiet(old(target.trace), target.trace)
      ensures old(state).LOST? ==> state.LOST? && stopId == old(stopId) && sink.frames == old(sink.frames) && transportDead == old(transportDead)
      ensures old(state).HALTED? && old(stopId) == UINT32_MAX ==>
                && state.LOST? && stopId == 0
                && sink.frames == if transportDead then old(sink.frames) else old(sink.frames) + [TargetLost(LOST_TIMEOUT)]
    {
      hide StopsOrdered, StopsBelow, Tracks, TableOk, Disciplined, HaltKnown, Resumes, ImageAfter, Parse, Visible, First, Classify, Same, SnapshotIs,
           Keeps, HitsLocated, HitsNamed, ExplainedBy, PendingShows, Unreported, Ordered, PendingSnapped;
      ClearDebugState();
      ClearRunTracking();
      EmptyTableMisses(stop, run);
      EnterHalted(stop);
      Rename(STOP_RESET);
    }

    /** RESET_RUN: OK means a reset that let the target run, with no debug resource in it; an admissible request
        fails only if a call did. */
    twostate predicate ResetRunDone(p: Payload, st: Status)
      requires bps.count <= bps.slots.Length
      reads this, target, bps, bps.slots
    {
      && (target.trace == old(target.trace) <==> !old(MayReset(p, caps.resetRun)))
      && (!old(MayReset(p, caps.resetRun)) ==> RefusedReset(p, st))
      && (old(MayReset(p, caps.resetRun)) && !st.STATUS_OK? ==>
            Faulty(old(target.trace), target.trace) || Unconfirmed(old(target.trace), target.trace))
      && (st.STATUS_OK? ==>
            && state.RUNNING? && Bare() && !stepOverPending && run == NOT_RUNNING
            && |target.trace| > |old(target.trace)| && Last(target.trace) == WasReset(false, true, target.image))
    }

    /** RESET_RUN: the target runs again with no debug resource in it. */
    method OpResetRun(id: nat, payload: Payload) returns (st: Status)
      requires Valid() && !transportDead && (state.HALTED? || state.RUNNING?)
      modifies this`state, this`stopId, this`stopReported, this`pending, this`run, this`stepOverPending,
               this`stepOverAddress, this`logicalPc, this`pcCertain, this`wrapped, this`transportDead, sink,
               bps`count, bps.slots, target`mem, target`image, target`pc, target`trace, target`answer, target`halted, target`resumes,
               target`hw, target`wps, target`catchMask, pendingRegisters
      ensures Valid() && AnsweredOnce(old(sink.frames), sink.frames, OP_RESET_RUN, id, transportDead)
      ensures Wraps() ==> old(stopId) + Generations(OP_RESET_RUN, old(state)) > UINT32_MAX
      ensures st.STATUS_OK? && old(stopId) + Generations(OP_RESET_RUN, old(state)) > UINT32_MAX ==> Wraps()
      ensures !Wraps() ==> Answered(old(sink.frames), sink.frames, OP_RESET_RUN, id, st, transportDead)
      ensures Wraps() ==> AnsweredLate(OP_RESET_RUN, id, st) && if st.STATUS_OK? then state.RUNNING? else state.LOST?
      ensures target.resumes == old(target.resumes)
      ensures !state.DETACHED?
      ensures CallsBy(OP_RESET_RUN, old(target.trace), target.trace)
      ensures ResetRunDone(payload, st)
    {
      hide StopsOrdered, StopsBelow, Tracks, TableOk, Disciplined, HaltKnown, Resumes, ImageAfter, Parse, Visible, First, Classify,
           RepliesIn, Answered, AnsweredOnce, EventsSince, Core, Sound, Valid, Bare, StoppedFrame, Harmless, Belongs, MayReset, Faulty, Snapped, RefusedReset;
      Settled();
      Grounded();
      st := CheckReset(payload, caps.resetRun);
      if !st.STATUS_OK? {
        SendResponse(OP_RESET_RUN, id, st);
        Replied(old(sink.frames), sink.frames, OP_RESET_RUN, id, st, NoBody, transportDead);
        return;
      }
      st := ResetToRun(id);
    }

    /** An admissible RESET_RUN. */
    method ResetToRun(id: nat) returns (st: Status)
      requires Valid() && !transportDead && (state.HALTED? || state.RUNNING?)
      modifies this`state, this`stopId, this`stopReported, this`pending, this`run, this`stepOverPending,
               this`stepOverAddress, this`logicalPc, this`pcCertain, this`wrapped, this`transportDead, sink,
               bps`count, bps.slots, target`mem, target`image, target`pc, target`trace, target`answer, target`halted, target`resumes,
               target`hw, target`wps, target`catchMask, pendingRegisters
      ensures Valid() && AnsweredOnce(old(sink.frames), sink.frames, OP_RESET_RUN, id, transportDead)
      ensures Wraps() ==> old(stopId) + Generations(OP_RESET_RUN, old(state)) > UINT32_MAX
      ensures st.STATUS_OK? && old(stopId) + Generations(OP_RESET_RUN, old(state)) > UINT32_MAX ==> Wraps()
      ensures !Wraps() ==> Answered(old(sink.frames), sink.frames, OP_RESET_RUN, id, st, transportDead)
      ensures Wraps() ==> AnsweredLate(OP_RESET_RUN, id, st) && if st.STATUS_OK? then state.RUNNING? else state.LOST?
      ensures target.resumes == old(target.resumes)
      ensures !state.DETACHED?
      ensures CallsBy(OP_RESET_RUN, old(target.trace), target.trace)
      ensures st.STATUS_OK? ==> |target.trace| > |old(target.trace)| && Last(target.trace) == WasReset(false, true, target.image)
      ensures st.STATUS_OK? ==> state.RUNNING? && Bare() && !stepOverPending && run == NOT_RUNNING
      ensures |target.trace| > |old(target.trace)|
      ensures !st.STATUS_OK? ==> Faulty(old(target.trace), target.trace) || Unconfirmed(old(target.trace), target.trace)
    {
      hide StopsOrdered, StopsBelow, Tracks, TableOk, Disciplined, HaltKnown, Resumes, ImageAfter, Parse, Visible, First, Classify,
           RepliesIn, Answered, AnsweredOnce, EventsSince, Core, Sound, Valid, Bare, StoppedFrame, Harmless, Belongs, MayReset, Faulty, Snapped;
      Settled();
      Grounded();
      var ready;
      ready, st := PrepareReset(OP_RESET_RUN, id);
      if ready {
        ghost var mid, bare := sink.frames, target.trace;
        st := ResetAndGo(id);
        if !st.STATUS_OK? {
          FaultyOn(old(target.trace), bare, target.trace);
        }
        LateAnswer(old(sink.frames), mid, sink.frames, OP_RESET_RUN, id, transportDead);
        WrapIsLate(old(sink.frames), OP_RESET_RUN, id, st);
      }
    }

    /** The session of a target that has been reset to run. */
    method RunBare()
      requires Sound() && attached && Bare()
      modifies this`state, this`stopReported, this`pending, this`run, this`stepOverPending, this`stepOverAddress
      ensures Valid() && Bare() && state.RUNNING? && !stepOverPending && run == NOT_RUNNING
    {
      hide StopsOrdered, StopsBelow, TableOk, Tracks, Disciplined, HaltKnown, Resumes, ImageAfter, Bare;
      ClearDebugState();
      ClearRunTracking();
      state := RUNNING;
    }

    method ResetAndGo(id: nat) returns (st: Status)
      requires Core() && attached && Bare()
      modifies this`state, this`stopReported, this`pending, this`run, this`stepOverPending, this`stepOverAddress,
               this`pcCertain, this`transportDead, sink,
               target`mem, target`image, target`pc, target`trace, target`answer, target`halted, target`resumes
      ensures Valid() && target.resumes == old(target.resumes)
      ensures old(transportDead) ==> transportDead && sink.frames == old(sink.frames)
      ensures !old(transportDead) ==> Answered(old(sink.frames), sink.frames, OP_RESET_RUN, id, st, transportDead)
      ensures !old(transportDead) ==> AnsweredOnce(old(sink.frames), sink.frames, OP_RESET_RUN, id, transportDead)
      ensures st.STATUS_OK? ==> state.RUNNING? && Bare() && !stepOverPending && run == NOT_RUNNING
      ensures !state.DETACHED?
      ensures CallsBy(OP_RESET_RUN, old(target.trace), target.trace)
      ensures st.STATUS_OK? ==> target.trace == old(target.trace) + [WasReset(false, true, target.image)]
      ensures old(state).LOST? && !old(transportDead) ==>
                sink.frames == if transportDead then old(sink.frames) else old(sink.frames) + [Response(OP_RESET_RUN, id, st, NoBody)]
      ensures !st.STATUS_OK? ==> state.LOST?
      ensures !st.STATUS_OK? ==> Faulty(old(target.trace), target.trace)
    {
      hide StopsOrdered, StopsBelow, Tracks, TableOk, Disciplined, HaltKnown, Resumes, ImageAfter, RepliesIn, Answered, Faulty, Bare, AnsweredOnce, Harmless, Core, Sound, Valid;
      var e, unused;
      e, unused, st := ResetBare(OP_RESET_RUN, id, false);
      if !e.OK? {
        FaultyLast(old(target.trace), Last(target.trace));
        return;
      }
      RunBare();
      Grounded();
      SendResponse(OP_RESET_RUN, id, st);
      if !old(transportDead) {
        Replied(old(sink.frames), sink.frames, OP_RESET_RUN, id, st, NoBody, transportDead);
      }
    }

    // ---- DETACH, disconnect and ATTACH ----------------------------------------------------------------

    /** DETACH: OK means that the target was given back bare, at the program counter the peer believes in, to run on
        or not as asked; an admissible request fails only if a call did, and then nothing is released. */
    twostate predicate DetachDone(p: Payload, st: Status, stop: StopDetect)
      requires old(bps.count <= bps.slots.Length)
      reads this, target
    {
      && (if p.DetachRequest? && (p.action == 1 || p.action == 2)
          then !st.STATUS_OK? ==> Faulty(old(target.trace), target.trace)
          else st.STATUS_INVALID_ARGUMENT? && target.trace == old(target.trace))
      && (st.STATUS_OK? ==>
            && state.DETACHED? && !attached && p.DetachRequest?
            && Released(p.action == 2, DetachPc(stop)) && DetachHits(stop))
      && (!st.STATUS_OK? ==>
            && attached && (state == old(state) || state.LOST?) && Quiet(old(target.trace), target.trace)
            && (old(state).HALTED? ==> state.HALTED? && ShownPc() == old(ShownPc())))
    }

    /** DETACH gives back an unpatched target, standing at the program counter the peer believes in. */
    method OpDetach(id: nat, payload: Payload) returns (st: Status, ghost stop: StopDetect)
      requires Valid() && !transportDead && (state.HALTED? || state.RUNNING?)
      modifies this`state, this`stopId, this`stopReported, this`attached, this`pending, this`run, this`stepOverPending,
               this`stepOverAddress, this`mark, this`transportDead, sink,
               bps`count, bps.slots, target`mem, target`image, target`pc, target`trace, target`answer, target`halted, target`resumes,
               target`hw, target`wps, target`catchMask
      ensures Valid() && Answered(old(sink.frames), sink.frames, OP_DETACH, id, st, transportDead)
      ensures target.resumes == old(target.resumes) && CallsBy(OP_DETACH, old(target.trace), target.trace)
      ensures old(state).HALTED? ==> target.image == old(target.image)
      ensures Spared(old(bps.Entries()), old(target.image), target.image)
      ensures DetachDone(payload, st, stop)
      ensures st.STATUS_OK? ==> state.DETACHED? && !attached
      ensures !st.STATUS_OK? ==> attached && !state.DETACHED?
    {
      hide StopsOrdered, StopsBelow, Tracks, TableOk, Disciplined, HaltKnown, Resumes, ImageAfter, Classify, HitSlot, Same, DetachHits, Faulty;
      stop := NO_STOP;
      if !payload.DetachRequest? || (payload.action != DETACH_KEEP_HALTED && payload.action != DETACH_RESUME) {
        st := STATUS_INVALID_ARGUMENT;
        SendResponse(OP_DETACH, id, st);
        return;
      }
      if state.RUNNING? {
        var e, seen := HaltForDetach();
        stop := seen;
        if !e.OK? {
          FaultyLast(old(target.trace), Last(target.trace));
          st := SendBackendFailure(OP_DETACH, id, e, STATUS_TIMEOUT);
          return;
        }
      }
      ghost var mid := target.trace;
      st := GiveBack(id, payload.action);
      if !st.STATUS_OK? {
        FaultyOn(old(target.trace), mid, target.trace);
      }
      DetachHitsFollow(stop);
    }

    const DETACH_KEEP_HALTED: nat := 1
    const DETACH_RESUME: nat := 2

    function ActionOf(action: nat): DetachAction {
      if action == DETACH_RESUME then Resume else KeepHalted
    }

    /** Where DETACH leaves the core: where the peer was told it is, or, from RUNNING, where the internal
        halt `stop` found the program, before any BKPT it ran into. */
    twostate function DetachPc(stop: StopDetect): int
      requires old(bps.count <= bps.slots.Length)
    {
      var hit := HitSlot(old(bps.Entries()), stop.pc);
      if old(state).HALTED? then (if old(pcCertain) then old(logicalPc) else old(ShownPc()))
      else if BkptStop(stop) && hit >= 0 then old(bps.Entries())[hit].address
      else if old(stepOverPending) then old(stepOverAddress)
      else stop.pc
    }

    /** A running core that DETACH finds on a breakpoint is given up at that breakpoint, exactly when its report
        is unmistaken. */
    twostate predicate DetachHits(stop: StopDetect)
      requires old(bps.count <= bps.slots.Length)
    {
      old(state).RUNNING? && BkptStop(stop) ==>
        forall k :: RanInto(old(bps.Entries()), k, stop.pc) ==>
          DetachPc(stop) == if Unmistaken(old(bps.Entries()), k, stop.pc) then old(bps.Entries())[k].address
                            else old(bps.Entries())[k].address - 2
    }

    twostate lemma DetachHitsFollow(stop: StopDetect)
      requires old(bps.Valid())
      ensures DetachHits(stop)
    {
      hide Tracks, Disciplined, HaltKnown, Resumes, ImageAfter, Unmistaken, HitSlot, RanInto;
      if old(state).RUNNING? && BkptStop(stop) {
        forall k | RanInto(old(bps.Entries()), k, stop.pc)
          ensures 0 <= k < |old(bps.Entries())|
          ensures DetachPc(stop) == if Unmistaken(old(bps.Entries()), k, stop.pc) then old(bps.Entries())[k].address
                                    else old(bps.Entries())[k].address - 2
        {
          RanIntoSlot(old(bps.Entries()), k, stop.pc);
          HitFound(old(bps.Entries()), k, stop.pc);
        }
      }
    }

    /** The last backend call gave the target up: bare, at `pc`, to run on or to stay halted. */
    ghost predicate Released(resume: bool, pc: int)
      reads target
    {
      && target.trace != []
      && var c := target.trace[|target.trace| - 1];
         c.Detached? && c.ok && (c.action.Resume? <==> resume)
         && c.at.table == [] && Same(c.at.mem, c.at.image) && c.at.pc == pc
    }

    /** The internal halt of DETACH: a breakpoint it finds the core on is remembered, not reported. */
    method HaltForDetach() returns (e: Err, stop: StopDetect)
      requires Core() && state.RUNNING?
      modifies this`stepOverPending, this`stepOverAddress, target`mem, target`image, target`pc, target`trace, target`answer,
               target`halted, target`resumes
      ensures Core() && Quiet(old(target.trace), target.trace) && target.resumes == old(target.resumes)
      ensures !e.OK? ==> stepOverPending == old(stepOverPending) && stepOverAddress == old(stepOverAddress)
      ensures e.OK? ==> target.halted && ShownPc() == DetachPc(stop)
      ensures Spared(old(bps.Entries()), old(target.image), target.image)
      ensures target.trace == old(target.trace) + [HaltConfirmed(e.OK?, stop.halted, old(bps.Entries()), target.image)]
    {
      hide StopsOrdered, StopsBelow, Tracks, Disciplined, HaltKnown, Resumes, ImageAfter, HitSlot, Same;
      e, stop := HaltNow();
      if e.OK? && BkptStop(stop) {
        var k := bps.FindByHaltPc(stop.pc);
        if k >= 0 {
          stepOverPending, stepOverAddress := true, bps.slots[k].address;
        }
      }
    }

    /** Rewinds, restores and detaches a halted target. A failure keeps what a retry needs. */
    method GiveBack(id: nat, action: nat) returns (st: Status)
      requires Core() && Held() && attached && target.halted && !transportDead && (state.HALTED? || state.RUNNING?)
      modifies this`state, this`stopId, this`stopReported, this`attached, this`pending, this`run, this`stepOverPending,
               this`stepOverAddress, this`mark, this`transportDead, sink,
               bps`count, bps.slots, target`mem, target`pc, target`trace, target`answer, target`halted, target`resumes,
               target`hw, target`wps, target`catchMask
      ensures Core() && Answered(old(sink.frames), sink.frames, OP_DETACH, id, st, transportDead)
      ensures target.resumes == old(target.resumes) && CallsBy(OP_DETACH, old(target.trace), target.trace)
      ensures st.STATUS_OK? ==> state.DETACHED? && !attached && Released(action == DETACH_RESUME, old(ShownPc()))
      ensures !st.STATUS_OK? ==>
                state == old(state) && attached && stopReported == old(stopReported) && ShownPc() == old(ShownPc())
      ensures !st.STATUS_OK? ==> Quiet(old(target.trace), target.trace)
      ensures !st.STATUS_OK? ==> st.STATUS_SWD_ERROR? && Faulty(old(target.trace), target.trace)
    {
      hide StopsOrdered, StopsBelow, Tracks, TableOk, Disciplined, HaltKnown, Resumes, ImageAfter, Unrestored, Restored, Faulty;
      var released := Release(ActionOf(action));
      if !released {
        st := STATUS_SWD_ERROR;
        SendResponse(OP_DETACH, id, st);
        return;
      }
      st := STATUS_OK;
      SendResponse(OP_DETACH, id, st);
      Forget();
    }

    /** The three steps that hand a halted target back; each may fail, and none loses a shadow. */
    method Release(action: DetachAction) returns (ok: bool)
      requires Core() && target.halted
      modifies bps`count, bps.slots, target`mem, target`pc, target`trace, target`answer, target`halted, target`resumes,
               target`hw, target`wps, target`catchMask
      ensures bps.Valid() && target.resumes == old(target.resumes) && CallsBy(OP_DETACH, old(target.trace), target.trace)
      ensures ok ==> bps.Entries() == [] && Released(action.Resume?, old(ShownPc()))
      ensures !ok ==>
                Core() && Quiet(old(target.trace), target.trace) && target.halted && ShownPc() == old(ShownPc())
      ensures !ok ==> Faulty(old(target.trace), target.trace)
    {
      hide StopsOrdered, StopsBelow, TableOk, Disciplined, HaltKnown, Resumes, ImageAfter, Unrestored, Restored, Tracks, Faulty;
      var ready := Unpatch();
      ok := ready;
      ghost var mid := target.trace;
      if ok {
        var e := target.Detach(action, bps.Entries());
        ok := e.OK?;
        if !ok {
          FaultyLast(mid, Last(target.trace));
          FaultyOn(old(target.trace), mid, target.trace);
        }
      }
    }

    /** The first two of them: the core goes where the peer believes it is, and the program gets its code back. */
    method Unpatch() returns (ok: bool)
      requires Core() && target.halted
      modifies bps`count, bps.slots, target`mem, target`pc, target`trace, target`answer, target`halted, target`resumes
      ensures Core() && target.halted && Quiet(old(target.trace), target.trace) && target.resumes == old(target.resumes)
      ensures ShownPc() == old(ShownPc()) && target.image == old(target.image)
      ensures ok ==> bps.Entries() == [] && Same(target.mem, target.image) && target.pc == ShownPc()
      ensures !ok ==> Faulty(old(target.trace), target.trace)
    {
      hide StopsOrdered, StopsBelow, TableOk, Disciplined, HaltKnown, Resumes, ImageAfter, Unrestored, Restored, Tracks, Faulty, Same;
      ok := true;
      if stepOverPending {
        ok := WriteCurrentPc(stepOverAddress);
        if !ok {
          FaultyLast(old(target.trace), Last(target.trace));
        }
      }
      ghost var mid := target.trace;
      if ok {
        ok := bps.RestoreAll();
        if !ok {
          FaultyOn(old(target.trace), mid, target.trace);
        }
      }
    }

    /** The first call since `t` was a halt whose stop does not say that the core is halted. */
    predicate Unconfirmed(t: seq<Call>, t': seq<Call>) {
      |t| < |t'| && t'[|t|].HaltConfirmed? && !t'[|t|].seen
    }

    /** The peer is gone: the transport is latched dead, and the target is taken back whole or kept. */
    method HandleDisconnect() returns (clean: bool)
      requires Core()
      modifies this`state, this`stopId, this`stopReported, this`attached, this`pending, this`run, this`stepOverPending,
               this`stepOverAddress, this`mark, this`transportDead, sink,
               bps`count, bps.slots, target`mem, target`image, target`pc, target`trace, target`answer, target`halted, target`resumes,
               target`hw, target`wps, target`catchMask
      ensures Valid() && transportDead && sink.frames == old(sink.frames)
      ensures target.resumes == old(target.resumes) && CallsBy(OP_DETACH, old(target.trace), target.trace)
      ensures !old(attached) ==> clean && state == old(state) && target.trace == old(target.trace)
      ensures clean ==> !attached && bps.Entries() == []
      ensures clean && old(attached) ==> state.DETACHED? && GivenBack()
      ensures !clean ==> attached && state.LOST? && Quiet(old(target.trace), target.trace)
      ensures Spared(old(bps.Entries()), old(target.image), target.image)
      ensures old(target.halted) ==> target.image == old(target.image)
      ensures !clean ==> Faulty(old(target.trace), target.trace) || Unconfirmed(old(target.trace), target.trace)
    {
      hide StopsOrdered, StopsBelow, TableOk, Disciplined, HaltKnown, Resumes, ImageAfter, Unrestored, Restored, Tracks, Faulty, LossTold, GivenBack, Spared, Harmless, Belongs;
      transportDead := true;
      NothingToTell();
      if !attached {
        SparedNothing(bps.Entries(), target.image);
        return true;
      }
      var e, stop := HaltNow();
      clean := e.OK? && stop.halted;
      ghost var mid := target.trace;
      if !e.OK? {
        FaultyLast(old(target.trace), Last(mid));
      }
      if clean {
        clean := TakeBack();
        if !clean {
          FaultyOn(old(target.trace), mid, target.trace);
        }
      }
      if !clean {
        state := LOST;
        NothingToTell();
        return;
      }
      Forget();
    }

    /** What the loss of the peer comes to: an attached target is given back unpatched, or lost for a reason. */
    twostate predicate PeerGone()
      reads this, target
    {
      && transportDead
      && (if !old(attached) then target.trace == old(target.trace) && state == old(state)
          else if !attached then state.DETACHED? && GivenBack()
          else state.LOST? && (Faulty(old(target.trace), target.trace) || Unconfirmed(old(target.trace), target.trace)))
    }

    lemma NothingToTell()
      ensures transportDead || !state.LOST? ==> LossTold()
    {
    }

    /** Ends the attachment. */
    method Forget()
      requires Wired() && bps.Valid() && bps.count == 0 && maxTransfer <= MAX_MEMORY_TRANSFER
      modifies this`state, this`stopId, this`stopReported, this`attached, this`pending, this`run, this`stepOverPending,
               this`stepOverAddress, this`mark
      ensures Valid() && state.DETACHED? && !attached && stopId == 0 && !stepOverPending
      ensures run == NOT_RUNNING && !stopReported && pending == NO_RECORD
    {
      hide StopsOrdered, StopsBelow, TableOk, Disciplined, HaltKnown, Resumes, ImageAfter, Tracks;
      attached, state, stopId := false, DETACHED, 0;
      mark := |sink.frames|;
      FreshMark(sink.frames, stopId);
      ClearDebugState();
      ClearRunTracking();
    }

    /** The last backend call left the target halted, bare and unpatched. */
    ghost predicate GivenBack()
      reads target
    {
      && target.trace != []
      && var c := target.trace[|target.trace| - 1];
         c.Detached? && c.ok && c.action.KeepHalted? && c.at.table == [] && Same(c.at.mem, c.at.image)
    }

    method TakeBack() returns (ok: bool)
      requires Wired() && bps.Valid() && target.halted
      modifies bps`count, bps.slots, target`mem, target`trace, target`answer, target`halted, target`resumes,
               target`hw, target`wps, target`catchMask
      ensures bps.Valid() && target.resumes == old(target.resumes) && CallsBy(OP_DETACH, old(target.trace), target.trace)
      ensures ok ==> bps.Entries() == [] && GivenBack()
      ensures !ok ==> Quiet(old(target.trace), target.trace)
      ensures !ok ==> Faulty(old(target.trace), target.trace)
    {
      hide TableOk, Disciplined, HaltKnown, Resumes, ImageAfter, Unrestored, Restored, Tracks, Faulty;
      ok := bps.RestoreAll();
      ghost var restored := target.trace;
      if ok {
        var e := target.Detach(KeepHalted, bps.Entries());
        ok := e.OK?;
        if !ok {
          FaultyLast(restored, Last(target.trace));
          FaultyOn(old(target.trace), restored, target.trace);
        }
      }
    }

    /** ATTACH: one connection; OK exactly if it succeeds and reports a memory map the session can hold. The answer
        is the sanitised report, the table is empty, memory is the image, and the target is brought to a stop of
        generation 1 or left running, as asked, unless a call fails. */
    twostate predicate AttachDone(p: Payload, st: Status)
      requires Wired() && pending.registersSize + pending.stackSize <= SNAPSHOT_CAPACITY && bps.count <= bps.slots.Length
      reads this, sink, target, bps, bps.slots, pendingRegisters
    {
      if !p.AttachRequest? then st.STATUS_INVALID_ARGUMENT? && target.trace == old(target.trace)
      else
        var n, m := |old(target.trace)|, |old(sink.frames)|;
        && |target.trace| > n && target.trace[n].Attached?
        && var c := target.trace[n];
           && (c.ok ==> Established(m, target.trace[..n + 1], c.info, p.haltAfter, st))
           && (!c.ok ==> FailedAs(target.answer, STATUS_SWD_ERROR, st, DETACHED))
    }

    /** What comes of the report `info` of a target: `from` frames and the calls `t` were made before. */
    ghost predicate Established(from: nat, t: seq<Call>, info: AttachInfo, haltAfter: bool, st: Status)
      requires Wired() && pending.registersSize + pending.stackSize <= SNAPSHOT_CAPACITY && bps.count <= bps.slots.Length
      reads this, sink, target, bps, bps.slots, pendingRegisters
    {
      && (st.STATUS_OK? <==> info.regionBytes % 20 == 0 && |info.regions| <= 64)
      && (st.STATUS_OK? ==>
            && bps.Entries() == [] && Same(target.mem, target.image) && !wrapped
            && ReportTaken(NormalizeAttachInfo(info)) && regions == info.regions
            && (state.HALTED? ==> stopId == 1 && target.halted && haltAfter))
      && (st.STATUS_OK? && |sink.frames| > from ==>
            && Bears(sink.frames[from], AttachBody(NormalizeAttachInfo(info)))
            && (!haltAfter ==> state.RUNNING? && |sink.frames| == from + 1)
            && (haltAfter && !state.HALTED? ==> Faulty(t, target.trace))
            && (state.HALTED? && !transportDead ==>
                  |sink.frames| == from + 2 && StoppedFrame(sink.frames[from + 1]) && Snapped(sink.frames[from + 1])))
    }

    /** The session works with the limits and capabilities of `info`. */
    ghost predicate ReportTaken(info: AttachInfo)
      reads this`caps, this`hwLimit, this`wpLimit, this`maxTransfer, this`catchSupported
    {
      && caps == info.caps && hwLimit == info.hardwareBps && wpLimit == info.hardwareWps
      && maxTransfer == info.maxTransfer && catchSupported == info.catchMask
    }

    /** ATTACH: a fresh connection to whatever the target holds. */
    method OpAttach(id: nat, payload: Payload) returns (st: Status)
      requires Core() && !transportDead && state.DETACHED?
      modifies this, sink, bps`count, bps.slots, target, pendingRegisters
      ensures !old(attached) ==> Valid()
      ensures old(attached) ==> st.STATUS_BUSY? && target.trace == old(target.trace) && (old(Valid()) ==> Valid())
      ensures Answered(old(sink.frames), sink.frames, OP_ATTACH, id, st, transportDead)
      ensures target.resumes == old(target.resumes) && CallsBy(OP_ATTACH, old(target.trace), target.trace)
      ensures st.STATUS_OK? ==> attached && (state.DETACHED? ==> transportDead)
      ensures state.DETACHED? && !st.STATUS_OK? ==> attached == old(attached)
      ensures !old(attached) ==> AttachDone(payload, st)
    {
      hide StopsOrdered, StopsBelow, Tracks, TableOk, Disciplined, HaltKnown, Resumes, ImageAfter, Established;
      if attached {
        st := STATUS_BUSY;
        SendResponse(OP_ATTACH, id, st);
        return;
      }
      if !payload.AttachRequest? {
        st := STATUS_INVALID_ARGUMENT;
        SendResponse(OP_ATTACH, id, st);
        return;
      }
      var e, info := Connect();
      if !e.OK? {
        st := SendBackendFailure(OP_ATTACH, id, e, STATUS_SWD_ERROR);
        return;
      }
      assert target.trace[..|old(target.trace)| + 1] == target.trace;
      ghost var connected := target.trace;
      st := Establish(id, payload.haltAfter, info);
      assert target.trace[..|old(target.trace)| + 1] == connected;
    }

    lemma QuietlyOn(opcode: Opcode, t: seq<Call>, mid: seq<Call>, t': seq<Call>)
      requires CallsBy(opcode, t, mid) && Quiet(mid, t')
      ensures t <= mid <= t' && CallsBy(opcode, t, t')
    {
    }

    lemma Silent()
      requires (Core() || Valid()) && transportDead
      ensures Valid()
    {
    }

    lemma Laid()
      requires Valid()
      ensures Wired() && bps.Valid() && pending.registersSize + pending.stackSize <= SNAPSHOT_CAPACITY
      ensures state.HALTED? ==> target.halted
    {
    }

    /** Takes over an attached target, if the session can hold its memory map, and brings it to its first state. */
    method Establish(id: nat, haltAfter: bool, info: AttachInfo) returns (st: Status)
      requires Valid() && !attached && !transportDead && state.DETACHED?
      requires |info.regions| == info.regionBytes / REGION_BYTES
      modifies this, sink, bps`count, bps.slots, target, pendingRegisters
      ensures Valid() && Answered(old(sink.frames), sink.frames, OP_ATTACH, id, st, transportDead)
      ensures target.resumes == old(target.resumes) && CallsBy(OP_ATTACH, old(target.trace), target.trace)
      ensures Established(|old(sink.frames)|, old(target.trace), info, haltAfter, st)
      ensures st.STATUS_OK? ==> attached && (state.DETACHED? ==> transportDead)
      ensures state.DETACHED? && !st.STATUS_OK? ==> !attached
    {
      hide StopsOrdered, StopsBelow, Tracks, TableOk, Disciplined, HaltKnown, Resumes, ImageAfter, Faulty, StoppedFrame, Snapped, NormalizeAttachInfo,
           Core, Sound, Valid, Answered, Harmless, Belongs, ReportTaken, CallsBy, Quiet;
      st := Adopt(id, info);
      if st.STATUS_OK? && !transportDead {
        ghost var answered, adopted := sink.frames, target.trace;
        HoldAfterAttach(haltAfter);
        QuietlyOn(OP_ATTACH, old(target.trace), adopted, target.trace);
        if haltAfter && !state.HALTED? {
          FaultyOn(old(target.trace), adopted, target.trace);
        }
        AnsweredThenEvents(old(sink.frames), answered, sink.frames, OP_ATTACH, id, st, false, transportDead);
      }
      if transportDead {
        Silent();
      }
      Laid();
      if st.STATUS_OK? {
        NothingHidden(bps.Entries(), target.mem, target.image);
      }
    }

    method Connect() returns (e: Err, info: AttachInfo)
      requires Core() && !attached && state.DETACHED?
      modifies target
      ensures Valid() && target.resumes == old(target.resumes) && old(target.trace) <= target.trace
      ensures |info.regions| == info.regionBytes / REGION_BYTES
      ensures target.trace == old(target.trace) + [Attached(e.OK?, info, target.image)]
      ensures target.answer == e
    {
      hide StopsOrdered, StopsBelow, TableOk, Disciplined, HaltKnown, Resumes, ImageAfter, Tracks;
      NothingHidden(bps.Entries(), target.mem, target.image);
      e, info := target.Attach();
      NothingTracked(target.mem, target.image);
      assert bps.Entries() == [];
    }

    /** Takes over an attached target: a fresh session, and the report the peer may rely on. */
    method Adopt(id: nat, reported: AttachInfo) returns (st: Status)
      requires Valid() && !attached && !transportDead && state.DETACHED?
      requires |reported.regions| == reported.regionBytes / REGION_BYTES
      modifies this, sink, bps`count, bps.slots, target
      ensures Core() && Answered(old(sink.frames), sink.frames, OP_ATTACH, id, st, transportDead)
      ensures target.resumes == old(target.resumes) && CallsBy(OP_ATTACH, old(target.trace), target.trace)
      ensures st.STATUS_OK? ==> attached && state.DETACHED? && stopId == 0 && bps.count == 0 && !wrapped
      ensures !st.STATUS_OK? ==> transportDead && (if attached then state.LOST? else state.DETACHED?)
      ensures st.STATUS_OK? ==> var info := NormalizeAttachInfo(reported);
                && ReportTaken(info) && regions == reported.regions
                && sink.frames == if transportDead then old(sink.frames) else old(sink.frames) + [Response(OP_ATTACH, id, st, AttachBody(info))]
      ensures st.STATUS_OK? <==> reported.regionBytes % REGION_BYTES == 0 && |reported.regions| <= MAX_MEMORY_REGIONS
    {
      hide StopsOrdered, StopsBelow, TableOk, Disciplined, HaltKnown, Resumes, ImageAfter, Tracks;
      var info := NormalizeAttachInfo(reported);
      assert info.regions == reported.regions && info.regionBytes == reported.regionBytes;
      StartSession(info);
      if info.regionBytes % REGION_BYTES != 0 || info.regionBytes / REGION_BYTES > MAX_MEMORY_REGIONS {
        st := STATUS_ERROR;
        RejectMap(id);
        return;
      }
      regions := info.regions;
      st := STATUS_OK;
      var _ := FinishFrame(Response(OP_ATTACH, id, st, AttachBody(info)));
    }

    /** A memory map the session cannot hold: the connection ends after its error answer. */
    method RejectMap(id: nat)
      requires Core() && attached && !transportDead && state.DETACHED?
      modifies this`state, this`stopId, this`stopReported, this`attached, this`pending, this`run, this`stepOverPending,
               this`stepOverAddress, this`mark, this`transportDead, sink,
               bps`count, bps.slots, target`mem, target`image, target`pc, target`trace, target`answer, target`halted, target`resumes,
               target`hw, target`wps, target`catchMask
      ensures Core() && transportDead && (if attached then state.LOST? else state.DETACHED?)
      ensures Answered(old(sink.frames), sink.frames, OP_ATTACH, id, STATUS_ERROR, transportDead)
      ensures target.resumes == old(target.resumes) && CallsBy(OP_ATTACH, old(target.trace), target.trace)
    {
      hide StopsOrdered, StopsBelow, TableOk, Disciplined, HaltKnown, Resumes, ImageAfter, Tracks, Spared, GivenBack;
      SendResponse(OP_ATTACH, id, STATUS_ERROR);
      var _ := HandleDisconnect();
    }

    /** Everything a new attachment starts from. */
    method StartSession(info: AttachInfo)
      requires Valid() && !attached && state.DETACHED? && info.maxTransfer <= MAX_MEMORY_TRANSFER
      modifies this`attached, this`caps, this`hwLimit, this`wpLimit, this`maxTransfer, this`catchSupported, this`stopId,
               this`mark, this`wrapped, this`stopReported, this`pending, this`stepOverPending, this`stepOverAddress,
               this`run, this`regions, bps`count
      ensures Core() && attached && state.DETACHED? && transportDead == old(transportDead)
      ensures stopId == 0 && bps.count == 0 && !wrapped && regions == []
      ensures caps == info.caps && maxTransfer == info.maxTransfer
      ensures hwLimit == info.hardwareBps && wpLimit == info.hardwareWps && catchSupported == info.catchMask
      ensures run == NOT_RUNNING && pending == NO_RECORD && !stopReported && !stepOverPending
    {
      hide StopsOrdered, StopsBelow, TableOk, Disciplined, HaltKnown, Resumes, ImageAfter, Tracks, Same;
      TakeReport(info);
      Reopen();
      bps.count := 0;
    }

    /** A new attachment has seen no stop and owes nothing. */
    method Reopen()
      requires Core() && !attached && state.DETACHED?
      modifies this`attached, this`stopId, this`mark, this`wrapped, this`stopReported, this`pending, this`stepOverPending,
               this`stepOverAddress, this`run
      ensures Core() && attached && stopId == 0 && !wrapped
      ensures run == NOT_RUNNING && pending == NO_RECORD && !stopReported && !stepOverPending
    {
      hide StopsOrdered, StopsBelow, TableOk, Disciplined, HaltKnown, Resumes, ImageAfter, Tracks, Same, LossTold;
      attached, stopId := true, 0;
      mark, wrapped := |sink.frames|, false;
      FreshMark(sink.frames, stopId);
      ClearDebugState();
      ClearRunTracking();
      NothingToTell();
    }

    method TakeReport(info: AttachInfo)
      modifies this`caps, this`hwLimit, this`wpLimit, this`maxTransfer, this`catchSupported, this`regions
      ensures caps == info.caps && hwLimit == info.hardwareBps && wpLimit == info.hardwareWps
      ensures maxTransfer == info.maxTransfer && catchSupported == info.catchMask && regions == []
    {
      caps, hwLimit, wpLimit, maxTransfer := info.caps, info.hardwareBps, info.hardwareWps, info.maxTransfer;
      catchSupported, regions := info.catchMask, [];
    }

    /** Brings a newly attached target to its first state. */
    method HoldAfterAttach(haltAfter: bool)
      requires Core() && attached && !transportDead && state.DETACHED? && stopId == 0
      modifies this`state, this`stopId, this`stopReported, this`pending, this`run, this`stepOverPending,
               this`stepOverAddress, this`logicalPc, this`pcCertain, this`wrapped, this`transportDead, sink,
               target`mem, target`image, target`pc, target`trace, target`answer, target`halted, target`resumes, pendingRegisters
      ensures Valid() && !state.DETACHED? && wrapped == old(wrapped) && EventsSince(old(sink.frames), sink.frames)
      ensures target.resumes == old(target.resumes) && Quiet(old(target.trace), target.trace)
      ensures state.HALTED? ==> haltAfter && stopId == 1
      ensures state.HALTED? && !transportDead ==>
                |sink.frames| == |old(sink.frames)| + 1 && StoppedFrame(sink.frames[|old(sink.frames)|]) && Snapped(sink.frames[|old(sink.frames)|])
      ensures Spared(bps.Entries(), old(target.image), target.image) && (old(target.halted) ==> target.image == old(target.image))
      ensures !haltAfter ==> state.RUNNING? && target.trace == old(target.trace) && sink.frames == old(sink.frames) && transportDead == old(transportDead)
      ensures haltAfter && !state.HALTED? ==> Faulty(old(target.trace), target.trace)
    {
      hide StopsOrdered, StopsBelow, Tracks, TableOk, Disciplined, HaltKnown, Resumes, ImageAfter, Parse, Visible, First, Classify, Snapped, Faulty;
      SparedNothing(bps.Entries(), target.image);
      if !haltAfter {
        state := RUNNING;
        return;
      }
      ghost var i := target.image;
      var e, stop := PollNow();
      ghost var polled := target.trace;
      if !e.OK? {
        FaultyLast(old(target.trace), Last(polled));
        EnterLost(LossOf(e));
        return;
      }
      if !stop.halted {
        ghost var mid := target.image;
        e, stop := HaltNow();
        SparedOn(bps.Entries(), i, mid, target.image);
        if !e.OK? {
          FaultyLast(polled, Last(target.trace));
          FaultyOn(old(target.trace), polled, target.trace);
        }
        if e.FAIL? {
          EnterLost(LOST_SWD_FAULT);
          return;
        }
        if !e.OK? {
          state := RUNNING;
          return;
        }
      }
      ReportStop(stop);
    }

    // ---- RUN ------------------------------------------------------------------------------------------

    /** Why a RUN is refused for its fixed fields. */
    ghost function RunFieldStatus(r: RunRequest): Status
      reads this
    {
      if r.coreId != 0 then STATUS_INVALID_ARGUMENT
      else if r.stopId != stopId then STATUS_STALE_STOP
      else if r.action < 1 || r.action > 3 || (r.action == 3 <==> r.runTo == 0) then STATUS_INVALID_ARGUMENT
      else if r.action == 3 && (r.runTo % 2 != 0 || !ExecutableRange(regions, r.runTo, 2, false)) then STATUS_ADDRESS_ERROR
      else if (r.action == 2 && !caps.singleStep) || !(r.catchMask <= catchSupported) then STATUS_UNSUPPORTED
      else STATUS_OK
    }

    /** Checks the fixed fields of a RUN request. */
    method CheckRunFields(r: RunRequest) returns (st: Status)
      ensures st.STATUS_OK? <==>
                && r.coreId == 0 && r.stopId == stopId && r.catchMask <= catchSupported
                && (r.action == 1 || r.action == 2 || r.action == 3)
                && (r.action == 2 ==> caps.singleStep)
                && (r.action != 3 ==> r.runTo == 0)
                && (r.action == 3 ==>
                      r.runTo != 0 && r.runTo % 2 == 0 && ExecutableRange(regions, r.runTo, 2, false))
      ensures st == RunFieldStatus(r)
    {
      if r.coreId != 0 {
        return STATUS_INVALID_ARGUMENT;
      }
      if r.stopId != stopId {
        return STATUS_STALE_STOP;
      }
      if (r.action != RUN_CONTINUE && r.action != RUN_SINGLE_STEP && r.action != RUN_TO_ADDRESS)
         || (r.action != RUN_TO_ADDRESS && r.runTo != 0) || (r.action == RUN_TO_ADDRESS && r.runTo == 0) {
        return STATUS_INVALID_ARGUMENT;
      }
      if r.action == RUN_TO_ADDRESS {
        var executable := IsExecutableRange(regions, r.runTo, 2, false);
        if r.runTo % 2 != 0 || !executable {
          return STATUS_ADDRESS_ERROR;
        }
      }
      if (r.action == RUN_SINGLE_STEP && !caps.singleStep) || !(r.catchMask <= catchSupported) {
        return STATUS_UNSUPPORTED;
      }
      st := STATUS_OK;
    }

    /** Checks a RUN request against the session; on OK `config` is what it asks for. */
    method CheckRun(r: RunRequest) returns (st: Status, config: RunConfig)
      ensures st.STATUS_OK? <==> MayRun(r)
      ensures st.STATUS_OK? ==> config == RequestedConfig(r)
      ensures st.STATUS_OK? ==> |config.sw| <= MAX_SOFTWARE_BREAKPOINTS && forall k :: 0 <= k < |config.sw| ==> Site(config.sw[k])
      ensures !RunFieldStatus(r).STATUS_OK? ==> st == RunFieldStatus(r)
      ensures RunFieldStatus(r).STATUS_OK? && !r.sized ==> st.STATUS_INVALID_ARGUMENT?
    {
      hide SoftwareOf, HardwareOf, Site, Settable, Watchable, ExecutableRange;
      config := RunConfig([], [], [], {});
      st := CheckRunFields(r);
      if !st.STATUS_OK? {
        return;
      }
      if !r.sized {
        return STATUS_INVALID_ARGUMENT, config;
      }
      if |r.breakpoints| > MAX_HARDWARE_BREAKPOINTS + MAX_SOFTWARE_BREAKPOINTS {
        return STATUS_NO_BREAKPOINT_SLOT, config;
      }
      if |r.watchpoints| > MAX_HARDWARE_WATCHPOINTS {
        return STATUS_NO_WATCHPOINT_SLOT, config;
      }
      var sw, hw;
      st, sw, hw := SortBreakpoints(r.breakpoints, caps, hwLimit, regions);
      if !st.STATUS_OK? {
        return;
      }
      if r.action == RUN_TO_ADDRESS {
        var reuses := Reuses(hw, r.runTo);
        if !caps.hardwareBp || (!reuses && |hw| >= hwLimit) {
          return STATUS_NO_BREAKPOINT_SLOT, config;
        }
      }
      if (|r.watchpoints| != 0 && !caps.watchpoint) || |r.watchpoints| > wpLimit {
        return STATUS_NO_WATCHPOINT_SLOT, config;
      }
      var wps;
      st, wps := CheckWatchpoints(r.watchpoints);
      config := RunConfig(sw, hw, wps, r.catchMask);
    }

    /** Installs a whole configuration; a failure may leave any part of it behind. */
    method Install(config: RunConfig) returns (st: Status)
      requires Core() && state.HALTED? && |config.sw| <= MAX_SOFTWARE_BREAKPOINTS
      requires forall k :: 0 <= k < |config.sw| ==> Site(config.sw[k])
      modifies this`run, bps`count, bps.slots, target`mem, target`image, target`pc, target`trace, target`answer, target`halted,
               target`resumes, target`hw, target`wps, target`catchMask
      ensures Core() && Quiet(old(target.trace), target.trace) && target.resumes == old(target.resumes)
      ensures target.image == old(target.image) && target.pc == old(target.pc)
      ensures st.STATUS_OK? ==> Installed(config)
      ensures st.STATUS_OK? ==> run == old(run).(hwIds := IdsOf(config.hw))
      ensures st.STATUS_OK? ==> |target.trace| > |old(target.trace)|
      ensures st.STATUS_OK? ==> Genuine(config.sw, target.image)
      ensures !st.STATUS_OK? && !(st.STATUS_INVALID_ARGUMENT? && (Clashing(config.sw) || !Genuine(config.sw, target.image))) ==>
                Faulty(old(target.trace), target.trace)
      ensures st.STATUS_OK? ==> !Clashing(config.sw)
    {
      hide TableOk, Tracks, Disciplined, HaltKnown, Resumes, ImageAfter, StopsOrdered, StopsBelow, Armed, ArmedExcept, Site, Read, Faulty, Clashing;
      st := bps.Apply(config.sw);
      if !st.STATUS_OK? {
        return;
      }
      ghost var mid := target.trace;
      st := InstallHardware(config);
      if !st.STATUS_OK? {
        FaultyOn(old(target.trace), mid, target.trace);
      }
    }

    /** The part of a configuration that lives in the debug unit. */
    method InstallHardware(config: RunConfig) returns (st: Status)
      requires Core() && state.HALTED?
      requires SameSites(bps.Entries(), config.sw) && Armed(bps.Entries(), target.mem, target.image)
      modifies this`run, target`trace, target`answer, target`halted, target`resumes, target`hw, target`wps, target`catchMask
      ensures Core() && Quiet(old(target.trace), target.trace) && target.resumes == old(target.resumes)
      ensures st.STATUS_OK? ==> Installed(config)
      ensures st.STATUS_OK? ==> run == old(run).(hwIds := IdsOf(config.hw))
      ensures |target.trace| > |old(target.trace)|
      ensures !st.STATUS_OK? ==> Faulty(old(target.trace), target.trace)
    {
      hide TableOk, Tracks, Disciplined, HaltKnown, Resumes, ImageAfter, StopsOrdered, StopsBelow, Armed, ArmedExcept, SameSites;
      var e := target.ApplyBreakpoints(config.hw);
      if !e.OK? {
        assert Failing(Last(target.trace));
        return STATUS_NO_BREAKPOINT_SLOT;
      }
      run := run.(hwIds := IdsOf(config.hw));
      e := target.ApplyWatchpoints(config.wps);
      if !e.OK? {
        assert Failing(Last(target.trace));
        return STATUS_NO_WATCHPOINT_SLOT;
      }
      e := target.SetVectorCatch(config.catchMask);
      st := if e.OK? then STATUS_OK else STATUS_UNSUPPORTED;
      assert !e.OK? ==> Failing(Last(target.trace));
    }

    /** RUN: exactly an admissible request makes any call. OK means that the core was released as asked, under the
        configuration asked for, and that a stop it ran into by then is reported; otherwise something excuses
        the failure, and unless the target is lost nothing of the attempt is left. */
    twostate predicate RunDone(p: Payload, st: Status, stop: StopDetect)
      requires old(bps.count <= bps.slots.Length) && bps.count <= bps.slots.Length
      reads this, sink, target, bps, bps.slots
    {
      && (target.trace == old(target.trace) <==> !(p.RunPayload? && old(MayRun(p.run))))
      && (!p.RunPayload? ==> st.STATUS_INVALID_ARGUMENT?)
      && (p.RunPayload? && !old(RunFieldStatus(p.run)).STATUS_OK? ==> st == old(RunFieldStatus(p.run)))
      && (st.STATUS_OK? ==>
            && p.RunPayload? && p.run.stopId == old(stopId)
            && Launched(old(target.resumes), target.resumes, old(stepOverPending), old(stepOverAddress),
                        RunActionOf(p.run.action), p.run.runTo, RequestedConfig(p.run))
            && (forall i :: |old(target.resumes)| <= i < |target.resumes| ==> AsAsked(target.resumes[i], p.run))
            && (p.run.action == 2 ==> |target.resumes| == |old(target.resumes)| + 1)
            && (p.run.action == 2 && !old(stepOverPending) ==> target.resumes[|old(target.resumes)|].purpose == Run(SingleStep, 0))
            && (state.RUNNING? ==> FollowsRun(run, p.run))
            && LaunchReports(|old(sink.frames)|, old(stepOverPending) && |target.resumes| == |old(target.resumes)| + 1, stop,
                             old(run).(hwIds := IdsOf(HardwareOf(p.run.breakpoints))), RunActionOf(p.run.action), p.run.runTo))
      && (p.RunPayload? && old(MayRun(p.run)) ==>
            if st.STATUS_OK? then !Clashing(SoftwareOf(p.run.breakpoints)) && Genuine(SoftwareOf(p.run.breakpoints), old(target.image))
            else RunExcused(old(target.trace), old(target.image), SoftwareOf(p.run.breakpoints), st))
      && (!st.STATUS_OK? && !state.LOST? ==> RunUndone() && (target.trace == old(target.trace) || NothingLeft()))
      && (!st.STATUS_OK? && !state.LOST? ==> (ConfigurationKept() <==> target.trace == old(target.trace) || old(Unconfigured())))
      && (p.RunPayload? ==> SitesSpared(RequestedConfig(p.run).sw, old(target.image), target.image))
      && (old(stepOverPending) && p.RunPayload? && |target.resumes| > |old(target.resumes)| ==>
            WholeStep(target.resumes[|old(target.resumes)|], old(stepOverAddress), RequestedConfig(p.run).sw))
    }

    /** RUN: the whole configuration and then the core, or nothing. */
    method OpRun(id: nat, payload: Payload) returns (st: Status, ghost stop: StopDetect)
      requires Valid() && !transportDead && state.HALTED?
      modifies this`state, this`stopId, this`stopReported, this`pending, this`run, this`stepOverPending,
               this`stepOverAddress, this`logicalPc, this`pcCertain, this`wrapped, this`transportDead, sink,
               bps`count, bps.slots, target`mem, target`image, target`pc, target`trace, target`answer, target`halted, target`resumes,
               target`hw, target`wps, target`catchMask, pendingRegisters
      ensures Valid() && !state.DETACHED? && Answered(old(sink.frames), sink.frames, OP_RUN, id, st, transportDead)
      ensures CallsBy(OP_RUN, old(target.trace), target.trace)
      ensures RunDone(payload, st, stop)
      ensures target.trace == old(target.trace) ==> target.image == old(target.image)
    {
      hide TableOk, Tracks, Disciplined, HaltKnown, Resumes, ImageAfter, StopsOrdered, StopsBelow, Armed, ArmedExcept, Site, SoftwareOf, HardwareOf,
           AllSettable, Same, Quiet, Launched, Settable, Watchable, AsAsked, FollowsRun, LaunchReports, RunExcused, Clashing, Genuine, TrackingOf, RunActionOf, RunFieldStatus;
      stop := NO_STOP;
      if !payload.RunPayload? {
        st := STATUS_INVALID_ARGUMENT;
        SendResponse(OP_RUN, id, st);
        return;
      }
      var config;
      st, config := CheckRun(payload.run);
      if !st.STATUS_OK? {
        SendResponse(OP_RUN, id, st);
        return;
      }
      st, stop := InstallAndLaunch(id, RunActionOf(payload.run.action), payload.run.runTo, config);
      if st.STATUS_OK? {
        LaunchedAsAsked(old(target.resumes), target.resumes, old(stepOverPending), old(stepOverAddress), payload.run);
        TrackingFollows(payload.run);
      }
    }

    /** No debug resource is left of a RUN attempt. */
    ghost predicate NothingLeft()
      requires bps.count <= bps.slots.Length
      reads this, target, bps, bps.slots
    {
      state.HALTED? && target.halted && Bare() && run == NOT_RUNNING
    }

    /** The target holds no debug resource. */
    ghost predicate Unconfigured()
      requires bps.count <= bps.slots.Length
      reads target, bps, bps.slots
    {
      bps.Entries() == [] && target.hw == [] && target.wps == [] && target.catchMask == {}
    }

    /** The debug resources are what they were before the request. */
    twostate predicate ConfigurationKept()
      requires old(bps.count <= bps.slots.Length) && bps.count <= bps.slots.Length
      reads target, bps, bps.slots
    {
      && bps.Entries() == old(bps.Entries()) && target.hw == old(target.hw) && target.wps == old(target.wps)
      && target.catchMask == old(target.catchMask)
    }

    /** Why an admissible RUN may fail: a call failed, or the core did not finish its step in a hundred polls, or the
        breakpoints overlap, or one sits on a BKPT of the program itself. */
    ghost predicate RunExcused(t: seq<Call>, img: Mem, sw: seq<BpEntry>, st: Status)
      reads target
    {
      || Faulty(t, target.trace) || Exhausted(t, target.trace)
      || (st.STATUS_INVALID_ARGUMENT? && (Clashing(sw) || !Genuine(sw, img)))
    }

    /** A refused RUN: the core was not let go, and a rewind it still owes stays owed. */
    twostate predicate RunUndone()
      reads this, target
    {
      && state.HALTED? && target.resumes == old(target.resumes) && stopId == old(stopId)
      && stepOverPending == old(stepOverPending) && stepOverAddress == old(stepOverAddress)
      && logicalPc == old(logicalPc) && pcCertain == old(pcCertain)
      && target.image == old(target.image)
    }

    lemma RunFailed(t: seq<Call>, mid: seq<Call>, t': seq<Call>)
      requires t <= mid <= t'
      ensures Faulty(t, mid) || Faulty(mid, t') ==> Faulty(t, t')
      ensures Exhausted(mid, t') ==> Exhausted(t, t')
    {
      if Faulty(t, mid) || Faulty(mid, t') {
        FaultyOn(t, mid, t');
      }
      if Exhausted(mid, t') {
        ExhaustedOn(t, mid, t', t');
      }
    }

    method InstallAndLaunch(id: nat, action: RunAction, runTo: nat, config: RunConfig) returns (st: Status, ghost stop: StopDetect)
      requires Valid() && !transportDead && state.HALTED? && |config.sw| <= MAX_SOFTWARE_BREAKPOINTS
      requires forall k :: 0 <= k < |config.sw| ==> Site(config.sw[k])
      modifies this`state, this`stopId, this`stopReported, this`pending, this`run, this`stepOverPending,
               this`stepOverAddress, this`logicalPc, this`pcCertain, this`wrapped, this`transportDead, sink,
               bps`count, bps.slots, target`mem, target`image, target`pc, target`trace, target`answer, target`halted, target`resumes,
               target`hw, target`wps, target`catchMask, pendingRegisters
      ensures Valid() && !state.DETACHED? && Answered(old(sink.frames), sink.frames, OP_RUN, id, st, transportDead)
      ensures CallsBy(OP_RUN, old(target.trace), target.trace)
      ensures !st.STATUS_OK? ==> NothingLeft() || state.LOST?
      ensures !st.STATUS_OK? && !state.LOST? ==> RunUndone()
      ensures st.STATUS_OK? ==>
                Launched(old(target.resumes), target.resumes, old(stepOverPending), old(stepOverAddress), action, runTo, config)
      ensures st.STATUS_OK? && state.RUNNING? ==> run == TrackingOf(action, runTo, IdsOf(config.hw))
      ensures |target.trace| > |old(target.trace)|
      ensures SitesSpared(config.sw, old(target.image), target.image)
      ensures old(stepOverPending) && |target.resumes| > |old(target.resumes)| ==>
                WholeStep(target.resumes[|old(target.resumes)|], old(stepOverAddress), config.sw)
      ensures !st.STATUS_OK? ==> RunExcused(old(target.trace), old(target.image), config.sw, st)
      ensures st.STATUS_OK? ==> !Clashing(config.sw) && Genuine(config.sw, old(target.image))
      ensures st.STATUS_OK? ==> LaunchReports(|old(sink.frames)|, old(stepOverPending) && |target.resumes| == |old(target.resumes)| + 1, stop, old(run).(hwIds := IdsOf(config.hw)), action, runTo)
    {
      hide TableOk, Tracks, Disciplined, HaltKnown, Resumes, ImageAfter, StopsOrdered, StopsBelow, Armed, ArmedExcept, Site, Same, Launched, Core, Sound, Valid, Installed, WholeStep, Genuine, Clashing, SitesSpared, Faulty, Exhausted, RunReports;
      stop := NO_STOP;
      Settled();
      st := Install(config);
      if !st.STATUS_OK? {
        SitesSparedNothing(config.sw, target.image);
        ghost var mid := target.trace;
        st := FailRun(id, st);
        RunFailed(old(target.trace), mid, target.trace);
        return;
      }
      ghost var installed := target.trace;
      st, stop := Launch(id, action, runTo, config);
      RunFailed(old(target.trace), installed, target.trace);
    }

    /** A stop RUN reports is the one in which the internal step ended, if that was all, or the one in which
        the run did: `tracking` is what the session followed while it stepped. */
    ghost predicate LaunchReports(from: nat, onlyStep: bool, stop: StopDetect, tracking: RunTracking, action: RunAction, runTo: nat)
      reads this, sink, target, bps, bps.slots
    {
      if onlyStep then
        && RunReports(from, stop, tracking, action == SingleStep && !ShowsCause(stop))
        && (action == SingleStep || ShowsCause(stop))
      else RunReports(from, stop, TrackingOf(action, runTo, tracking.hwIds), false)
    }

    /** Lets a configured core go: over the breakpoint it stands on, if it stands on one, and then for good. */
    method Launch(id: nat, action: RunAction, runTo: nat, ghost config: RunConfig) returns (st: Status, ghost stop: StopDetect)
      requires Core() && Held() && stopReported && attached && !transportDead && state.HALTED? && Installed(config)
      requires Genuine(config.sw, target.image)
      modifies this`state, this`stopId, this`stopReported, this`pending, this`run, this`stepOverPending,
               this`stepOverAddress, this`logicalPc, this`pcCertain, this`wrapped, this`transportDead, sink,
               bps`count, bps.slots, target`mem, target`image, target`pc, target`trace, target`answer, target`halted, target`resumes,
               target`hw, target`wps, target`catchMask, pendingRegisters
      ensures Valid() && !state.DETACHED? && Answered(old(sink.frames), sink.frames, OP_RUN, id, st, transportDead)
      ensures CallsBy(OP_RUN, old(target.trace), target.trace)
      ensures !st.STATUS_OK? ==> NothingLeft() || state.LOST?
      ensures !st.STATUS_OK? && !state.LOST? ==> RunUndone()
      ensures st.STATUS_OK? ==>
                Launched(old(target.resumes), target.resumes, old(stepOverPending), old(stepOverAddress), action, runTo, config)
      ensures st.STATUS_OK? && state.RUNNING? ==> run == TrackingOf(action, runTo, old(run).hwIds)
      ensures SitesSpared(config.sw, old(target.image), target.image)
      ensures old(stepOverPending) && |target.resumes| > |old(target.resumes)| ==>
                WholeStep(target.resumes[|old(target.resumes)|], old(stepOverAddress), config.sw)
      ensures !st.STATUS_OK? ==> Faulty(old(target.trace), target.trace) || Exhausted(old(target.trace), target.trace)
      ensures st.STATUS_OK? ==> LaunchReports(|old(sink.frames)|, old(stepOverPending) && |target.resumes| == |old(target.resumes)| + 1, stop, old(run), action, runTo)
    {
      hide TableOk, Tracks, Disciplined, HaltKnown, Resumes, ImageAfter, StopsOrdered, StopsBelow, Armed, ArmedExcept, Same, Core, Sound, Valid, Installed, SitesSpared, WholeStep, Genuine, Harmless, Belongs, Faulty, Exhausted, ShowsCause, RunReports,
           Bare, Answered, TrackingOf;
      Grounded();
      var step, seen, lost := ExecuteStepOver(action, config);
      stop := seen;
      ghost var mid, stepped := target.image, target.trace;
      match step
      case Failed =>
        st := FailRun(id, STATUS_SWD_ERROR);
        FaultyOn(old(target.trace), stepped, target.trace);
      case FailedLost =>
        st := STATUS_TARGET_LOST;
        LoseRun(id, lost);
      case StoppedStep =>
        st := STATUS_OK;
        ReportStep(id, seen, true);
      case StoppedReal =>
        st := STATUS_OK;
        ReportStep(id, seen, false);
      case _ =>
        st, stop := Go(id, action, runTo, config);
        if !st.STATUS_OK? {
          FaultyOn(old(target.trace), stepped, target.trace);
        }
        SitesSparedOn(config.sw, old(target.image), mid, target.image);
    }

    /** A core that may be running without its configuration is given up. */
    method LoseRun(id: nat, lost: LostReason)
      requires Sound() && attached && !transportDead && !state.LOST?
      modifies this`state, this`transportDead, sink
      ensures Valid() && state.LOST?
      ensures Answered(old(sink.frames), sink.frames, OP_RUN, id, STATUS_TARGET_LOST, transportDead)
    {
      hide TableOk, Tracks, Disciplined, HaltKnown, Resumes, ImageAfter, StopsOrdered, StopsBelow, Core, Sound, Valid;
      Grounded();
      SendResponse(OP_RUN, id, STATUS_TARGET_LOST);
      EnterLost(lost);
    }

    /** What RUN reports, after `from` frames, if the core has stopped again by then: the stop, or that the step
        asked for is done. */
    ghost predicate RunReports(from: nat, stop: StopDetect, tracking: RunTracking, stepDone: bool)
      reads this, sink, target, bps, bps.slots
    {
      state.HALTED? ==>
        && target.halted && stop.pc == target.pc && bps.count <= bps.slots.Length
        && (!transportDead ==>
              && |sink.frames| == from + 2
              && var f := sink.frames[from + 1];
                 && f.Stopped? && f.stopId == stopId && Snapped(f)
                 && if stepDone then f.reason.STOP_SINGLE_STEP? else Tells(f, stop, bps.Entries(), tracking))
    }

    /** The instruction under the breakpoint was all this RUN executed. */
    method ReportStep(id: nat, stop: StopDetect, single: bool)
      requires Sound() && attached && state.HALTED? && !transportDead && target.halted && stop.pc == target.pc
      modifies this`state, this`stopId, this`stopReported, this`pending, this`run, this`stepOverPending,
               this`stepOverAddress, this`logicalPc, this`pcCertain, this`wrapped, this`transportDead, sink,
               target`mem, target`image, target`pc, target`trace, target`answer, target`halted, target`resumes, pendingRegisters
      ensures Valid() && !state.DETACHED? && Answered(old(sink.frames), sink.frames, OP_RUN, id, STATUS_OK, transportDead)
      ensures target.image == old(target.image) && target.resumes == old(target.resumes) && Quiet(old(target.trace), target.trace)
      ensures state.HALTED? && single ==> pending.reason.STOP_SINGLE_STEP?
      ensures state.HALTED? && !transportDead ==>
                |sink.frames| == |old(sink.frames)| + 2 && StoppedFrame(sink.frames[|old(sink.frames)| + 1])
      ensures !state.RUNNING?
      ensures RunReports(|old(sink.frames)|, stop, old(run), single) && bps.Entries() == old(bps.Entries())
    {
      hide TableOk, Tracks, Disciplined, HaltKnown, Resumes, ImageAfter, StopsOrdered, StopsBelow, Parse, Visible, First, Classify, Keeps, Tells, Snapped, PendingSnapped, LossTold, PendingShows, ExplainedBy;
      pcCertain := false;
      SendResponse(OP_RUN, id, STATUS_OK);
      ghost var answered := sink.frames;
      HoldStep(stop, single);
      EmitPendingStopped();
      assert EventsSince(answered, sink.frames);
      if state.HALTED? && !transportDead {
        SnappedHere(sink.frames[|old(sink.frames)| + 1]);
      }
      if state.HALTED? && !transportDead && !single {
        ToldHere(sink.frames[|old(sink.frames)| + 1], stop, old(run));
      }
    }

    method HoldStep(stop: StopDetect, single: bool)
      requires Core() && attached && state.HALTED? && target.halted && stop.pc == target.pc
      modifies this`state, this`stopId, this`stopReported, this`pending, this`run, this`stepOverPending,
               this`stepOverAddress, this`logicalPc, this`pcCertain, this`wrapped, this`transportDead, sink,
               target`mem, target`image, target`pc, target`trace, target`answer, target`halted, target`resumes, pendingRegisters
      ensures Core() && Held() && !state.DETACHED? && EventsSince(old(sink.frames), sink.frames)
      ensures old(transportDead) ==> transportDead && sink.frames == old(sink.frames)
      ensures target.image == old(target.image) && target.resumes == old(target.resumes) && Quiet(old(target.trace), target.trace)
      ensures state.HALTED? ==> sink.frames == old(sink.frames) && !stopReported && transportDead == old(transportDead)
      ensures state.HALTED? && single ==> pending.reason.STOP_SINGLE_STEP?
      ensures state.HALTED? && !single ==> Keeps(stop, old(run))
      ensures state.HALTED? ==> PendingSnapped()
      ensures !state.RUNNING?
      ensures state.HALTED? ==> target.halted && target.pc == old(target.pc)
      ensures bps.Entries() == old(bps.Entries())
    {
      hide TableOk, Tracks, Disciplined, HaltKnown, Resumes, ImageAfter, StopsOrdered, StopsBelow, Parse, Visible, First, Classify, Keeps, SnapshotIs;
      EnterHalted(stop);
      if single {
        Rename(STOP_SINGLE_STEP);
      }
    }

    /** The real resume of a RUN. */
    method Go(id: nat, action: RunAction, runTo: nat, ghost config: RunConfig) returns (st: Status, ghost stop: StopDetect)
      requires Sound() && attached && state.HALTED? && !transportDead && target.halted && Installed(config)
      modifies this`state, this`stopId, this`stopReported, this`pending, this`run, this`stepOverPending,
               this`stepOverAddress, this`logicalPc, this`pcCertain, this`wrapped, this`transportDead, sink,
               target`mem, target`image, target`pc, target`trace, target`answer, target`halted, target`resumes, pendingRegisters
      ensures Valid() && !state.DETACHED? && Answered(old(sink.frames), sink.frames, OP_RUN, id, st, transportDead)
      ensures CallsBy(OP_RUN, old(target.trace), target.trace)
      ensures !st.STATUS_OK? ==> state.LOST?
      ensures target.resumes ==
              old(target.resumes) + [Resumed(Run(action, runTo), config, old(target.At(bps.Entries())), st.STATUS_OK?)]
      ensures st.STATUS_OK? && state.RUNNING? ==> run == TrackingOf(action, runTo, old(run).hwIds)
      ensures SitesSpared(config.sw, old(target.image), target.image)
      ensures !st.STATUS_OK? ==> Faulty(old(target.trace), target.trace)
      ensures st.STATUS_OK? ==> RunReports(|old(sink.frames)|, stop, TrackingOf(action, runTo, old(run).hwIds), false)
    {
      hide TableOk, Tracks, Disciplined, HaltKnown, Resumes, ImageAfter, StopsOrdered, StopsBelow, ArmedExcept, Snapped, Tells, Faulty, PolledFirst, LossSent, SnapshotIs;
      stop := NO_STOP;
      var e := target.Resume(action, runTo, Run(action, runTo), config, bps.Entries());
      if !e.OK? {
        FaultyLast(old(target.trace), Last(target.trace));
        st := STATUS_TARGET_LOST;
        LoseRun(id, LossOf(e));
        return;
      }
      st := STATUS_OK;
      stop := Follow(id, TrackingOf(action, runTo, run.hwIds));
      SparedAtSites(bps.Entries(), config.sw, old(target.image), target.image);
    }

    /** The core has been let go: the request is answered, and one look shows whether it has stopped already. */
    method Follow(id: nat, tracking: RunTracking) returns (ghost stop: StopDetect)
      requires Sound() && attached && state.HALTED? && !transportDead
      modifies this`state, this`stopId, this`stopReported, this`pending, this`run, this`stepOverPending,
               this`stepOverAddress, this`logicalPc, this`pcCertain, this`wrapped, this`transportDead, sink,
               target`mem, target`image, target`pc, target`trace, target`answer, target`halted, target`resumes, pendingRegisters
      ensures Valid() && !state.DETACHED? && Answered(old(sink.frames), sink.frames, OP_RUN, id, STATUS_OK, transportDead)
      ensures Quiet(old(target.trace), target.trace) && target.resumes == old(target.resumes)
      ensures state.RUNNING? ==> run == tracking
      ensures bps.Entries() == old(bps.Entries()) && Spared(bps.Entries(), old(target.image), target.image)
      ensures RunReports(|old(sink.frames)|, stop, tracking, false)
    {
      hide TableOk, Tracks, Disciplined, HaltKnown, Resumes, ImageAfter, StopsOrdered, StopsBelow, Snapped, Tells, PolledFirst, LossSent, Spared;
      run, state := tracking, RUNNING;
      SendResponse(OP_RUN, id, STATUS_OK);
      stop := PollOnce();
    }

    // ---- dispatch -------------------------------------------------------------------------------------

    lemma Settled()
      requires Valid()
      ensures Core() && (!transportDead ==> Held() && (attached ==> !state.DETACHED?))
      ensures state.HALTED? || state.RUNNING? ==> attached
      ensures state.HALTED? && !transportDead ==> stopReported && target.halted
    {
      hide Sound;
    }

    /** Nothing the peer or the target could notice has happened. */
    twostate predicate Untouched()
      reads this, target, sink
    {
      && sink.frames == old(sink.frames) && target.trace == old(target.trace) && target.image == old(target.image)
      && state == old(state)
      && stopId == old(stopId) && transportDead == old(transportDead) && attached == old(attached)
    }

    /** When a request that halts the target wraps the stop generation, and what then comes of it: the loss
        is announced before the answer, and RESET_RUN leaves LOST again. */
    twostate predicate WrapOutcome(opcode: Opcode, id: nat, st: Status)
      reads this, sink
    {
      && (Wraps() ==>
            && old(stopId) + Generations(opcode, old(state)) > UINT32_MAX && AnsweredLate(opcode, id, st)
            && if opcode.OP_RESET_RUN? && st.STATUS_OK? then state.RUNNING? else state.LOST?)
      && (st.STATUS_OK? && old(stopId) + Generations(opcode, old(state)) > UINT32_MAX ==> Wraps())
    }

    /** A refused request: nothing but the answer has happened. */
    twostate predicate Unmoved()
      reads this, target
    {
      && target.trace == old(target.trace) && target.image == old(target.image) && state == old(state)
      && stopId == old(stopId) && attached == old(attached)
    }

    /** What comes of a request the state admits. */
    twostate predicate Served(m: Message, st: Status, stop: StopDetect)
      requires Wired() && pending.registersSize + pending.stackSize <= SNAPSHOT_CAPACITY
      requires old(bps.count <= bps.slots.Length) && bps.count <= bps.slots.Length
      reads this, sink, target, bps, bps.slots, pendingRegisters
    {
      match m.opcode
      case OP_ATTACH => AttachDone(m.payload, st)
      case OP_DETACH => DetachDone(m.payload, st, stop)
      case OP_GET_STATE => GetStateDone(m.payload, st)
      case OP_READ_MEMORY => ReadMemoryDone(m.payload, st)
      case OP_WRITE_MEMORY => WriteMemoryDone(m.payload, st)
      case OP_READ_REGISTERS => ReadRegistersDone(m.payload, st)
      case OP_WRITE_REGISTERS => WriteRegistersDone(m.payload, st)
      case OP_RUN => RunDone(m.payload, st, stop)
      case OP_HALT => HaltDone(m.payload, st, stop)
      case OP_RESET_HALT => ResetHaltDone(m.payload, st)
      case OP_RESET_RUN => ResetRunDone(m.payload, st)
      case OP_UNKNOWN(_) => false
    }

    /** A message from the peer: answered exactly once if it is a request, ignored otherwise. */
    method HandleRequest(m: Message) returns (st: Status, ghost stop: StopDetect)
      requires Valid()
      modifies this, sink, scratch, pendingRegisters, bps`count, bps.slots, target
      ensures Valid() && CallsBy(m.opcode, old(target.trace), target.trace) && old(sink.frames) <= sink.frames
      ensures old(transportDead) || !Answerable(m) ==> Untouched()
      ensures !old(transportDead) && Answerable(m) ==>
                && AnsweredOnce(old(sink.frames), sink.frames, m.opcode, m.id, transportDead)
                && (!(Halts(m.opcode) && Wraps()) ==> Answered(old(sink.frames), sink.frames, m.opcode, m.id, st, transportDead))
                && (Halts(m.opcode) ==> WrapOutcome(m.opcode, m.id, st))
      ensures old(state).LOST? ==> state.LOST? && target.trace == old(target.trace) && stopId == old(stopId) && attached == old(attached)
      ensures old(state).LOST? && !old(transportDead) && Answerable(m) ==>
                && Answered(old(sink.frames), sink.frames, m.opcode, m.id, st, transportDead)
                && |sink.frames| <= |old(sink.frames)| + 1 && (!m.opcode.OP_GET_STATE? ==> st.STATUS_TARGET_LOST?)
      ensures state.DETACHED? && !old(state).DETACHED? ==> m.opcode.OP_DETACH? && !attached && Answerable(m)
      ensures old(state).HALTED? && KeepsImage(m.opcode) ==> target.image == old(target.image)
      ensures m.opcode.OP_WRITE_MEMORY? && !old(transportDead) && Answerable(m) ==> StoresAsked(m.payload, st, old(target.trace), target.trace)
      ensures Accounted(old(target.trace), target.trace, old(target.image), target.image)
      ensures !old(transportDead) && Answerable(m) ==>
                if Barred(old(state), m.opcode) then BarredAs(old(state), m.opcode, st) && Unmoved() else Served(m, st, stop)
      ensures !old(transportDead) && Answerable(m) ==> InTurn(m.opcode, m.id, st, old(sink.frames), sink.frames, transportDead)
      ensures old(target.trace) <= target.trace
      ensures old(state).LOST? ==> AnswersSince(old(sink.frames), sink.frames)
      ensures m.opcode.OP_READ_MEMORY? && !old(transportDead) && Answerable(m) ==> ReadsImage(m.payload, st, old(Now()), Now())
    {
      hide Valid, Core, Sound, Held, Launched, Released, SameReport, ShowsPc, ImageWritten, PatchesKept, OverlappedTable,
           RunUndone, NothingLeft, PcFollowed, StoppedFrame, Accounted, Served;
      stop := NO_STOP;
      st := STATUS_OK;
      Settled();
      if transportDead || m.version != PROTOCOL_VERSION || !m.kind.REQUEST? || m.id == 0 {
        Accounts();
        return;
      }
      if m.opcode.OP_UNKNOWN? {
        st := if state.LOST? then STATUS_TARGET_LOST else STATUS_UNSUPPORTED;
        Refuse(m.opcode, m.id, st);
        Accounts();
        return;
      }
      var gate := GateOf(state, m.opcode);
      if !gate.ALLOW? {
        st := Refusal(gate);
        Refuse(m.opcode, m.id, st);
        Accounts();
        return;
      }
      st, stop := Dispatch(m);
      Accounts();
    }

    /** Serves a request the gate lets through. */
    method Dispatch(m: Message) returns (st: Status, ghost stop: StopDetect)
      requires Valid() && !transportDead && !m.opcode.OP_UNKNOWN? && GateOf(state, m.opcode).ALLOW?
      modifies this, sink, scratch, pendingRegisters, bps`count, bps.slots, target
      ensures Valid() && CallsBy(m.opcode, old(target.trace), target.trace)
      ensures AnsweredOnce(old(sink.frames), sink.frames, m.opcode, m.id, transportDead)
      ensures !(Halts(m.opcode) && Wraps()) ==> Answered(old(sink.frames), sink.frames, m.opcode, m.id, st, transportDead)
      ensures Halts(m.opcode) ==> WrapOutcome(m.opcode, m.id, st)
      ensures old(state).LOST? ==> state.LOST? && target.trace == old(target.trace) && stopId == old(stopId) && attached == old(attached)
      ensures old(state).LOST? ==>
                && Answered(old(sink.frames), sink.frames, m.opcode, m.id, st, transportDead)
                && |sink.frames| <= |old(sink.frames)| + 1 && m.opcode.OP_GET_STATE?
      ensures state.DETACHED? && !old(state).DETACHED? ==> m.opcode.OP_DETACH? && !attached
      ensures old(state).HALTED? && KeepsImage(m.opcode) ==> target.image == old(target.image)
      ensures m.opcode.OP_WRITE_MEMORY? ==> StoresAsked(m.payload, st, old(target.trace), target.trace)
      ensures Served(m, st, stop)
      ensures m.opcode.OP_READ_MEMORY? ==> ReadsImage(m.payload, st, old(Now()), Now())
    {
      hide Valid, Core, Sound, Held, Launched, Released, SameReport, ShowsPc, ImageWritten, PatchesKept, OverlappedTable,
           RunUndone, NothingLeft, PcFollowed, StoppedFrame, AnsweredOnce, Answered,
           Tells, AnsweredLate, AttachDone, DetachDone, GetStateDone, ReadMemoryDone, WriteMemoryDone, ReadRegistersDone, WriteRegistersDone,
           RunDone, HaltDone, ResetHaltDone, ResetRunDone, StoresAsked, ReadsImage;
      stop := NO_STOP;
      Settled();
      match m.opcode {
        case OP_HALT =>
          st, stop := OpHalt(m.id, m.payload);
          return;
        case OP_RESET_HALT =>
          st := OpResetHalt(m.id, m.payload);
          return;
        case OP_RESET_RUN =>
          st := OpResetRun(m.id, m.payload);
          return;
        case OP_ATTACH => st := OpAttach(m.id, m.payload);
        case OP_DETACH =>
          st, stop := OpDetach(m.id, m.payload);
        case OP_GET_STATE => st := OpGetState(m.id, m.payload);
        case OP_READ_MEMORY => st := OpReadMemory(m.id, m.payload);
        case OP_WRITE_MEMORY => st := OpWriteMemory(m.id, m.payload);
        case OP_READ_REGISTERS => st := OpReadRegisters(m.id, m.payload);
        case OP_WRITE_REGISTERS => st := OpWriteRegisters(m.id, m.payload);
        case OP_RUN =>
          st, stop := OpRun(m.id, m.payload);
      }
      AnsweredMeansOnce(old(sink.frames), sink.frames, m.opcode, m.id, st, transportDead);
    }

    method Refuse(opcode: Opcode, id: nat, st: Status)
      requires Valid() && !transportDead
      modifies this`transportDead, sink
      ensures Valid() && Answered(old(sink.frames), sink.frames, opcode, id, st, transportDead)
      ensures AnsweredOnce(old(sink.frames), sink.frames, opcode, id, transportDead)
      ensures |sink.frames| <= |old(sink.frames)| + 1
    {
      hide StopsOrdered, StopsBelow, RepliesIn, Answered, AnsweredOnce;
      SendResponse(opcode, id, st);
      Replied(old(sink.frames), sink.frames, opcode, id, st, NoBody, transportDead);
    }

    /** A tick of the poll timer. */
    method HandlePoll() returns (ghost stop: StopDetect)
      requires Valid()
      modifies this`state, this`stopId, this`stopReported, this`pending, this`run, this`stepOverPending,
               this`stepOverAddress, this`logicalPc, this`pcCertain, this`wrapped, this`transportDead, sink,
               target`mem, target`image, target`pc, target`trace, target`answer, target`halted, target`resumes, pendingRegisters
      ensures Valid() && Quiet(old(target.trace), target.trace) && EventsSince(old(sink.frames), sink.frames)
      ensures old(transportDead) || !old(state).RUNNING? ==> Untouched()
      ensures state.DETACHED? ==> old(state).DETACHED?
      ensures !old(transportDead) && old(state).RUNNING? ==>
                |target.trace| > |old(target.trace)| && PolledFirst(target.trace[|old(target.trace)|], old(stopId))
      ensures !old(transportDead) && old(state).RUNNING? && state.HALTED? && !transportDead ==>
                && |sink.frames| == |old(sink.frames)| + 1 && stop.pc == target.pc
                && Tells(sink.frames[|old(sink.frames)|], stop, bps.Entries(), old(run)) && Snapped(sink.frames[|old(sink.frames)|])
      ensures Spared(bps.Entries(), old(target.image), target.image) && (old(target.halted) ==> target.image == old(target.image))
      ensures Accounted(old(target.trace), target.trace, old(target.image), target.image)
      ensures !old(transportDead) && state.LOST? && old(state).RUNNING? && !transportDead ==> LossSent(old(sink.frames), sink.frames)
    {
      hide Valid, Core, Sound, Held, StoppedFrame, Accounted, Tells, Snapped;
      stop := NO_STOP;
      Settled();
      if transportDead || !state.RUNNING? || !attached {
        Accounts();
        return;
      }
      stop := PollOnce();
      Accounts();
    }

    /** A whole run of the session, whatever the peer sends and whenever the target is polled. */
    method Serve(inputs: seq<Input>) returns (ghost moments: seq<Moment>)
      requires Valid()
      modifies this, sink, scratch, pendingRegisters, bps`count, bps.slots, target
      ensures Valid() && old(target.trace) <= target.trace && old(sink.frames) <= sink.frames
      // exactly one answer per request, in the order of the requests
      ensures !transportDead ==> RepliesIn(sink.frames) == RepliesIn(old(sink.frames)) + Asked(inputs)
      // a dead transport stays dead and carries nothing more
      ensures old(transportDead) ==> transportDead && sink.frames == old(sink.frames)
      ensures old(transportDead) && PeerStays(inputs) ==> target.trace == old(target.trace) && state == old(state)
      // a lost target stays lost, untouched, and causes no event
      ensures old(state).LOST? && PeerStays(inputs) ==>
                state.LOST? && target.trace == old(target.trace) && AnswersSince(old(sink.frames), sink.frames)
      // turn by turn: the answer before its events, the calls that belong to the input, the image accounted for
      ensures Turns(inputs, moments) && moments[0] == old(Now()) && moments[|inputs|] == Now()
      ensures Accounted(old(target.trace), target.trace, old(target.image), target.image)
    {
      hide Valid, Core, Sound, Held, RepliesIn, Answered, AnsweredOnce, GivenBack, Asked, EventsSince, Answerable, TurnTaken, Accounted;
      NothingAsked(sink.frames);
      assert inputs[..0] == [];
      moments := [Now()];
      for n := 0 to |inputs|
        invariant |moments| == n + 1 && moments[0] == old(Now()) && moments[n] == Now()
        invariant forall k :: 0 <= k < n ==> TurnTaken(inputs[k], moments[k], moments[k + 1])
        invariant Valid() && old(target.trace) <= target.trace && old(sink.frames) <= sink.frames
        invariant !transportDead ==> RepliesIn(sink.frames) == RepliesIn(old(sink.frames)) + Asked(inputs[..n])
        invariant old(transportDead) ==> transportDead && sink.frames == old(sink.frames)
        invariant old(transportDead) && PeerStays(inputs) ==> target.trace == old(target.trace) && state == old(state)
        invariant old(state).LOST? && PeerStays(inputs) ==>
                    state.LOST? && target.trace == old(target.trace) && AnswersSince(old(sink.frames), sink.frames)
      {
        ghost var before, dead, lost := sink.frames, transportDead, state.LOST?;
        ghost var _, _ := Step(inputs[n]);
        moments := moments + [Now()];
        if !dead {
          AskedOneMore(old(sink.frames), before, sink.frames, inputs, n, transportDead);
        }
      }
      assert inputs[..|inputs|] == inputs;
      Accounts();
    }

    /** What can be seen now. */
    ghost function Now(): Moment
      reads this, target, sink
    {
      Moment(target.trace, target.image, sink.frames, transportDead, state)
    }

    /** Between two valid states the image is accounted for by the calls in between. */
    twostate lemma Accounts()
      requires old(Valid()) && Valid() && old(target.trace) <= target.trace
      ensures Accounted(old(target.trace), target.trace, old(target.image), target.image)
    {
      hide Disciplined, HaltKnown, Resumes, ImageAfter, Tracks, TableOk, StopsOrdered, StopsBelow, Accounted;
      ImageAccounted(target.origin, old(target.trace), target.trace);
    }

    /** Handles one input. */
    method Step(x: Input) returns (ghost st: Status, ghost stop: StopDetect)
      requires Valid()
      modifies this, sink, scratch, pendingRegisters, bps`count, bps.slots, target
      ensures Valid() && old(target.trace) <= target.trace && old(sink.frames) <= sink.frames
      ensures !old(transportDead) ==>
                if x.Request? && Answerable(x.m)
                then AnsweredOnce(old(sink.frames), sink.frames, x.m.opcode, x.m.id, transportDead)
                else EventsSince(old(sink.frames), sink.frames)
      ensures old(transportDead) ==> transportDead && sink.frames == old(sink.frames)
      ensures old(transportDead) && !x.PeerLost? ==> target.trace == old(target.trace) && state == old(state)
      ensures old(state).LOST? && !x.PeerLost? ==>
                state.LOST? && target.trace == old(target.trace) && AnswersSince(old(sink.frames), sink.frames)
      ensures state.DETACHED? && !old(state).DETACHED? ==> (x.Request? && x.m.opcode.OP_DETACH?) || (x.PeerLost? && transportDead)
      ensures TurnTaken(x, old(Now()), Now())
      ensures x.Request? && !old(transportDead) && Answerable(x.m) ==>
                if Barred(old(state), x.m.opcode) then BarredAs(old(state), x.m.opcode, st) && Unmoved() else Served(x.m, st, stop)
      ensures x.Tick? && !old(transportDead) && old(state).RUNNING? && state.HALTED? && !transportDead ==>
                && |sink.frames| == |old(sink.frames)| + 1 && stop.pc == target.pc
                && Tells(sink.frames[|old(sink.frames)|], stop, bps.Entries(), old(run)) && Snapped(sink.frames[|old(sink.frames)|])
      ensures x.PeerLost? ==> PeerGone()
    {
      hide Valid, Core, Sound, Held, RepliesIn, GivenBack, AnsweredOnce, Served, Tells, Snapped, TurnTaken,
           Unmoved;
      Settled();
      st, stop := STATUS_OK, NO_STOP;
      match x {
        case Request(m) =>
          st, stop := TakeRequest(m);
        case Tick =>
          stop := TakeTick();
        case PeerLost =>
          TakeLeave();
      }
    }

    /** A turn in which a message arrives. */
    method TakeRequest(m: Message) returns (st: Status, ghost stop: StopDetect)
      requires Valid()
      modifies this, sink, scratch, pendingRegisters, bps`count, bps.slots, target
      ensures Valid() && old(target.trace) <= target.trace && old(sink.frames) <= sink.frames
      ensures !old(transportDead) && Answerable(m) ==>
                && AnsweredOnce(old(sink.frames), sink.frames, m.opcode, m.id, transportDead)
                && if Barred(old(state), m.opcode) then BarredAs(old(state), m.opcode, st) && Unmoved() else Served(m, st, stop)
      ensures !old(transportDead) && !Answerable(m) ==> EventsSince(old(sink.frames), sink.frames)
      ensures old(transportDead) ==>
                transportDead && sink.frames == old(sink.frames) && target.trace == old(target.trace) && state == old(state)
      ensures old(state).LOST? ==> state.LOST? && target.trace == old(target.trace) && AnswersSince(old(sink.frames), sink.frames)
      ensures state.DETACHED? && !old(state).DETACHED? ==> m.opcode.OP_DETACH?
      ensures TurnTaken(Request(m), old(Now()), Now())
    {
      hide Valid, Core, Sound, Held, RepliesIn, AnsweredOnce, Answered, InTurn, CallsBy, Accounted, StoresAsked, HaltKnown, Served, ReadsImage,
           WrapOutcome, Barred, BarredAs, Observed, Quiet, AnswersSince;
      st, stop := HandleRequest(m);
      if !old(transportDead) && Answerable(m) {
        AnswerFollows(m, st, old(Now()), Now());
      }
    }

    lemma AnswerFollows(m: Message, st: Status, a: Moment, b: Moment)
      requires InTurn(m.opcode, m.id, st, a.frames, b.frames, b.dead) && CallsBy(m.opcode, a.trace, b.trace)
      requires m.opcode.OP_WRITE_MEMORY? ==> StoresAsked(m.payload, st, a.trace, b.trace)
      requires m.opcode.OP_READ_MEMORY? ==> ReadsImage(m.payload, st, a, b)
      requires Barred(a.state, m.opcode) ==> BarredAs(a.state, m.opcode, st) && b.trace == a.trace && b.state == a.state
      ensures AnswerTaken(m, st, a, b)
    {
      hide InTurn, CallsBy, StoresAsked, ReadsImage, Barred, BarredAs;
    }

    /** A turn in which the poll timer ticks. */
    method TakeTick() returns (ghost stop: StopDetect)
      requires Valid()
      modifies this`state, this`stopId, this`stopReported, this`pending, this`run, this`stepOverPending,
               this`stepOverAddress, this`logicalPc, this`pcCertain, this`wrapped, this`transportDead, sink,
               target`mem, target`image, target`pc, target`trace, target`answer, target`halted, target`resumes, pendingRegisters
      ensures Valid() && EventsSince(old(sink.frames), sink.frames) && old(target.trace) <= target.trace
      ensures old(transportDead) || !old(state).RUNNING? ==> Untouched()
      ensures !old(transportDead) && old(state).RUNNING? && state.HALTED? && !transportDead ==>
                && |sink.frames| == |old(sink.frames)| + 1 && stop.pc == target.pc
                && Tells(sink.frames[|old(sink.frames)|], stop, bps.Entries(), old(run)) && Snapped(sink.frames[|old(sink.frames)|])
      ensures state.DETACHED? ==> old(state).DETACHED?
      ensures TurnTaken(Tick, old(Now()), Now())
    {
      hide Valid, Core, Sound, Held, Accounted, Spared, Tells, SnapshotIs;
      stop := HandlePoll();
    }

    /** A turn in which the peer is lost. */
    method TakeLeave()
      requires Valid()
      modifies this`state, this`stopId, this`stopReported, this`attached, this`pending, this`run, this`stepOverPending,
               this`stepOverAddress, this`mark, this`transportDead, sink,
               bps`count, bps.slots, target`mem, target`image, target`pc, target`trace, target`answer, target`halted, target`resumes,
               target`hw, target`wps, target`catchMask
      ensures Valid() && old(target.trace) <= target.trace && sink.frames == old(sink.frames) && PeerGone()
      ensures TurnTaken(PeerLost, old(Now()), Now())
    {
      hide Valid, Sound, Held, GivenBack, Accounted, Spared, Faulty;
      Settled();
      var _ := HandleDisconnect();
      Accounts();
    }
  }

  /** Copies `data` into the buffer at `at`. */
  method StoreAt(buf: array<byte>, at: nat, data: seq<byte>)
    requires at + |data| <= buf.Length
    modifies buf
    ensures forall i :: 0 <= i < buf.Length ==> buf[i] == if at <= i < at + |data| then data[i - at] else old(buf[i])
  {
    for i := 0 to |data|
      invariant forall j :: 0 <= j < buf.Length ==> buf[j] == if at <= j < at + i then data[j - at] else old(buf[j])
    {
      buf[at + i] := data[i];
    }
  }

  /** With no patch in the target no stop can be on one. */
  lemma EmptyTableMisses(stop: StopDetect, run: RunTracking)
    ensures Classify(stop, [], run).hit == -1
  {
  }

  /** The register list that carries one program counter writes exactly that. */
  lemma PcEntryWrites(pc: u32)
    ensures PcWrites(Parse([15, 0, 4, 0] + U32Bytes(pc))) == [pc]
  {
    var b: seq<byte> := [15, 0, 4, 0] + U32Bytes(pc);
    U32RoundTrip(pc);
    assert b[4..8] == U32Bytes(pc);
    ParseStep(b, 0);
    assert Parse(b, 8) == [];
    assert EntryAt(b, 0) == Entry(15, 0, U32Bytes(pc));
  }

  lemma EmptyShowsNothing(b: seq<byte>)
    requires |b| == 0
    ensures Visible(Parse(b), ARM_REG_PC) == -1
  {
  }
}
