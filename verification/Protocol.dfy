/** Requests, frames and the rules that need no session state: gating by target state, the
    sanitised attach report, the memory map, and the lists of a RUN request. */
module Protocol {
  import opened Machine
  import opened Registers
  import opened TargetBackend

  const MAX_FRAME_SIZE: nat := 8192
  const HEADER_SIZE: nat := 12
  const PROTOCOL_VERSION: nat := 1
  const MAX_HARDWARE_BREAKPOINTS: nat := 16
  const MAX_HARDWARE_WATCHPOINTS: nat := 16
  const MAX_MEMORY_REGIONS: nat := 64
  const DEFAULT_MAX_MEMORY_TRANSFER: nat := 4096
  const MAX_MEMORY_TRANSFER: nat := 8160
  const READ_RESPONSE_SIZE: nat := 16
  const REGISTERS_RESPONSE_SIZE: nat := 12
  const STOPPED_EVENT_SIZE: nat := 36
  const ATTACH_RESPONSE_SIZE: nat := 32
  const MAX_REGISTER_IDS: nat := 64

  datatype TargetState = DETACHED | HALTED | RUNNING | LOST

  datatype Opcode =
    | OP_ATTACH | OP_DETACH | OP_GET_STATE | OP_READ_MEMORY | OP_WRITE_MEMORY | OP_READ_REGISTERS
    | OP_WRITE_REGISTERS | OP_RUN | OP_HALT | OP_RESET_HALT | OP_RESET_RUN | OP_UNKNOWN(code: nat)

  datatype AccessFlags = AccessFlags(requireHalted: bool, allowRunning: bool, allowMmio: bool)

  datatype Breakpoint = Breakpoint(id: nat, address: nat, kind: nat, size: nat, enabled: nat)
  datatype Watchpoint = Watchpoint(id: nat, address: nat, access: nat, size: nat, enabled: nat)

  /** `sized` says that the two tables fill the payload exactly. */
  datatype RunRequest = RunRequest(
    stopId: u32, coreId: nat, action: nat, catchMask: set<nat>, runTo: nat,
    breakpoints: seq<Breakpoint>, watchpoints: seq<Watchpoint>, sized: bool)

  /** A decoded payload. `Malformed` stands for one whose size does not fit its opcode. */
  datatype Payload =
    | AttachRequest(underReset: bool, haltAfter: bool)
    | DetachRequest(action: nat)
    | Empty
    | ReadMemoryRequest(stopId: u32, address: nat, length: nat, flags: AccessFlags, width: nat)
    | WriteMemoryRequest(stopId: u32, address: nat, length: nat, flags: AccessFlags, width: nat, data: seq<byte>)
    | ReadRegistersRequest(stopId: u32, coreId: nat, ids: seq<nat>)
    | WriteRegistersRequest(stopId: u32, coreId: nat, count: nat, registers: seq<byte>)
    | RunPayload(run: RunRequest)
    | ResetRequest(kind: nat)
    | Malformed

  datatype Kind = REQUEST | RESPONSE | EVENT | LOG_STREAM

  datatype Message = Message(version: nat, kind: Kind, opcode: Opcode, id: nat, payload: Payload)

  /** What can happen to a session: a message, a tick of the poll timer, the loss of the peer. */
  datatype Input = Request(m: Message) | Tick | PeerLost

  /** A message the session must answer. */
  predicate Answerable(m: Message) {
    m.version == 1 && m.kind.REQUEST? && m.id != 0
  }

  /** The requests among `inputs` that must be answered, in order. */
  function Asked(inputs: seq<Input>): seq<(Opcode, nat)> {
    if inputs == [] then []
    else
      var x := inputs[|inputs| - 1];
      Asked(inputs[..|inputs| - 1]) + (if x.Request? && Answerable(x.m) then [(x.m.opcode, x.m.id)] else [])
  }

  /** No input tells the session that its peer is gone. */
  predicate PeerStays(inputs: seq<Input>) {
    forall i :: 0 <= i < |inputs| ==> !inputs[i].PeerLost?
  }

  datatype StopReason =
    | STOP_UNKNOWN | STOP_BREAKPOINT | STOP_WATCHPOINT | STOP_SINGLE_STEP | STOP_USER_HALT | STOP_VECTOR_CATCH
    | STOP_FAULT | STOP_RESET | STOP_LOCKUP | STOP_RUN_TO_ADDRESS

  datatype LostReason = LOST_SWD_FAULT | LOST_TIMEOUT

  datatype Body =
    | NoBody
    | StateBody(state: TargetState, stopId: u32)
    | MemoryBody(address: nat, data: seq<byte>)
    | RegistersBody(stopId: u32, count: nat, registers: seq<byte>)
    | AttachBody(info: AttachInfo)

  datatype Frame =
    | Response(opcode: Opcode, id: nat, status: Status, body: Body)
    | Stopped(stopId: u32, reason: StopReason, breakpointId: nat, watchpointAddress: nat, registerCount: nat,
              registers: seq<byte>, stackAddress: nat, stack: seq<byte>)
    | TargetLost(lost: LostReason)

  /** Size of a frame on the wire, header included. */
  function FrameSize(f: Frame): nat {
    HEADER_SIZE +
    match f
    case Response(_, _, _, NoBody) => 4
    case Response(_, _, _, StateBody(_, _)) => 12
    case Response(_, _, _, MemoryBody(_, data)) => READ_RESPONSE_SIZE + |data|
    case Response(_, _, _, RegistersBody(_, _, registers)) => REGISTERS_RESPONSE_SIZE + |registers|
    case Response(_, _, _, AttachBody(info)) => ATTACH_RESPONSE_SIZE + REGION_BYTES * |info.regions|
    case Stopped(_, _, _, _, _, registers, _, stack) => STOPPED_EVENT_SIZE + |registers| + |stack|
    case TargetLost(_) => 8
  }

  // ---- the outgoing side --------------------------------------------------------------

  /** The transport's queue, as the session sees it: it takes a whole frame or rejects it. */
  class Sink {
    ghost var frames: seq<Frame>

    constructor ()
      ensures frames == []
    {
      frames := [];
    }

    method Send(f: Frame) returns (ok: bool)
      requires FrameSize(f) <= MAX_FRAME_SIZE
      modifies this
      ensures frames == if ok then old(frames) + [f] else old(frames)
    {
      ok := *;
      if ok {
        frames := frames + [f];
      }
    }
  }

  /** Only events were sent since `before`. */
  ghost predicate EventsSince(before: seq<Frame>, after: seq<Frame>) {
    before <= after && forall i :: |before| <= i < |after| ==> !after[i].Response?
  }

  /** Since `before` the session sent the one response to request `id`, with status `st`, and after
      it only events. Nothing at all is missing unless the transport died. */
  ghost predicate Answered(before: seq<Frame>, after: seq<Frame>, opcode: Opcode, id: nat, st: Status, dead: bool) {
    && before <= after
    && (|after| == |before| ==> dead)
    && (|after| > |before| ==> Replies(after[|before|], opcode, id, st))
    && forall i :: |before| < i < |after| ==> !after[i].Response?
  }

  predicate Replies(f: Frame, opcode: Opcode, id: nat, st: Status) {
    f.Response? && f.opcode == opcode && f.id == id && f.status == st
  }

  /** The requests answered by `frames`, in order. */
  ghost function RepliesIn(frames: seq<Frame>): seq<(Opcode, nat)> {
    if frames == [] then []
    else
      var f := frames[|frames| - 1];
      RepliesIn(frames[..|frames| - 1]) + (if f.Response? then [(f.opcode, f.id)] else [])
  }

  /** One request was answered, and no other; events may surround the answer. */
  ghost predicate AnsweredOnce(before: seq<Frame>, after: seq<Frame>, opcode: Opcode, id: nat, dead: bool) {
    && before <= after
    && (RepliesIn(after) == RepliesIn(before) + [(opcode, id)] || (dead && RepliesIn(after) == RepliesIn(before)))
  }

  lemma {:induction false} EventsAnswerNothing(before: seq<Frame>, after: seq<Frame>)
    requires EventsSince(before, after)
    ensures RepliesIn(after) == RepliesIn(before)
    decreases |after|
  {
    if before != after {
      var n := |after| - 1;
      EventsAnswerNothing(before, after[..n]);
    }
  }

  lemma AnsweredMeansOnce(before: seq<Frame>, after: seq<Frame>, opcode: Opcode, id: nat, st: Status, dead: bool)
    requires Answered(before, after, opcode, id, st, dead)
    ensures AnsweredOnce(before, after, opcode, id, dead)
  {
    if |after| > |before| {
      var first := after[..|before| + 1];
      assert first[..|first| - 1] == before && first[|first| - 1] == after[|before|];
      EventsAnswerNothing(first, after);
    } else {
      assert after == before;
    }
  }

  /** A plain response, or none because the transport died. */
  lemma Replied(before: seq<Frame>, after: seq<Frame>, opcode: Opcode, id: nat, st: Status, body: Body, dead: bool)
    requires after == if dead then before else before + [Response(opcode, id, st, body)]
    ensures Answered(before, after, opcode, id, st, dead)
    ensures AnsweredOnce(before, after, opcode, id, dead)
  {
    AnsweredMeansOnce(before, after, opcode, id, st, dead);
  }

  /** A plain response, or none because the transport died, and events after it. */
  lemma RepliedThenEvents(before: seq<Frame>, mid: seq<Frame>, after: seq<Frame>, opcode: Opcode, id: nat, st: Status,
                          midDead: bool, dead: bool)
    requires mid == if midDead then before else before + [Response(opcode, id, st, NoBody)]
    requires EventsSince(mid, after) && (midDead ==> dead && after == mid)
    ensures Answered(before, after, opcode, id, st, dead)
    ensures AnsweredOnce(before, after, opcode, id, dead)
  {
    AnsweredMeansOnce(before, after, opcode, id, st, dead);
  }

  /** What a request sends when the stop generation wraps under it: the loss, and then the answer. */
  function WrapFrames(opcode: Opcode, id: nat, st: Status): seq<Frame> {
    [TargetLost(LOST_TIMEOUT), Response(opcode, id, st, NoBody)]
  }

  /** Such an answer is late. */
  lemma WrapIsLate(before: seq<Frame>, opcode: Opcode, id: nat, st: Status)
    ensures !Answered(before, before + WrapFrames(opcode, id, st), opcode, id, st, false)
    ensures before + [TargetLost(LOST_TIMEOUT)] + [Response(opcode, id, st, NoBody)] == before + WrapFrames(opcode, id, st)
  {
    assert (before + WrapFrames(opcode, id, st))[|before|] == TargetLost(LOST_TIMEOUT);
  }

  /** Events before the answer do not matter. */
  lemma LateAnswer(before: seq<Frame>, mid: seq<Frame>, after: seq<Frame>, opcode: Opcode, id: nat, dead: bool)
    requires EventsSince(before, mid) && (AnsweredOnce(mid, after, opcode, id, dead) || (dead && after == mid))
    ensures AnsweredOnce(before, after, opcode, id, dead)
  {
    EventsAnswerNothing(before, mid);
  }

  /** Only answers, no event, were sent since `before`. */
  ghost predicate AnswersSince(before: seq<Frame>, after: seq<Frame>) {
    before <= after && forall i :: |before| <= i < |after| ==> after[i].Response?
  }

  lemma NothingAsked(frames: seq<Frame>)
    ensures RepliesIn(frames) == RepliesIn(frames) + Asked([])
  {
  }

  /** The whole history of answers after one more input that may have been a request. */
  lemma AskedOneMore(start: seq<Frame>, before: seq<Frame>, after: seq<Frame>, inputs: seq<Input>, n: nat, dead: bool)
    requires n < |inputs| && start <= before <= after
    requires RepliesIn(before) == RepliesIn(start) + Asked(inputs[..n])
    requires
      if inputs[n].Request? && Answerable(inputs[n].m)
      then AnsweredOnce(before, after, inputs[n].m.opcode, inputs[n].m.id, dead)
      else EventsSince(before, after)
    ensures !dead ==> RepliesIn(after) == RepliesIn(start) + Asked(inputs[..n + 1])
  {
    assert inputs[..n + 1][..n] == inputs[..n];
    if !(inputs[n].Request? && Answerable(inputs[n].m)) {
      EventsAnswerNothing(before, after);
    }
  }

  /** Frames other than STOPPED do not disturb the order of stops. */
  lemma StopsOrderedMore(frames: seq<Frame>, f: Frame, mark: nat, stopId: u32)
    requires !f.Stopped?
    ensures StopsOrdered(frames, mark, stopId) ==> StopsOrdered(frames + [f], mark, stopId)
    ensures StopsBelow(frames, mark, stopId) ==> StopsBelow(frames + [f], mark, stopId)
  {
  }

  lemma StopsOrderedStop(frames: seq<Frame>, f: Frame, mark: nat, stopId: u32)
    requires StopsOrdered(frames, mark, stopId) && StopsBelow(frames, mark, stopId)
    requires f.Stopped? && f.stopId == stopId >= 1
    ensures StopsOrdered(frames + [f], mark, stopId)
  {
  }

  /** A new attachment starts with no stop reported. */
  lemma FreshMark(frames: seq<Frame>, stopId: u32)
    ensures StopsOrdered(frames, |frames|, stopId) && StopsBelow(frames, |frames|, stopId)
  {
  }

  lemma GenerationAdvances(frames: seq<Frame>, mark: nat, stopId: u32)
    requires stopId < UINT32_MAX && StopsOrdered(frames, mark, stopId)
    ensures StopsOrdered(frames, mark, stopId + 1) && StopsBelow(frames, mark, stopId + 1)
  {
  }

  lemma AnsweredThenEvents(before: seq<Frame>, mid: seq<Frame>, after: seq<Frame>, opcode: Opcode, id: nat,
                           st: Status, midDead: bool, dead: bool)
    requires Answered(before, mid, opcode, id, st, midDead) && EventsSince(mid, after)
    requires midDead ==> dead && after == mid
    ensures Answered(before, after, opcode, id, st, dead)
  {
  }

  /** The STOPPED events of the current attachment carry strictly increasing generations, none
      beyond the current one. */
  ghost predicate StopsOrdered(frames: seq<Frame>, mark: nat, stopId: u32) {
    && (forall i :: mark <= i < |frames| && frames[i].Stopped? ==> 1 <= frames[i].stopId <= stopId)
    && (forall i, j :: mark <= i < j < |frames| && frames[i].Stopped? && frames[j].Stopped? ==>
          frames[i].stopId < frames[j].stopId)
  }

  /** The current generation has not been reported. */
  ghost predicate StopsBelow(frames: seq<Frame>, mark: nat, stopId: u32) {
    forall i :: mark <= i < |frames| && frames[i].Stopped? ==> frames[i].stopId < stopId
  }

  // ---- gating -----------------------------------------------------------------------------

  datatype Gate = ALLOW | ATTACH_BUSY | DETACHED_ERROR | RUNNING_DENY | LOST_DENY

  function GateOf(state: TargetState, opcode: Opcode): Gate {
    match state
    case DETACHED => if opcode.OP_ATTACH? || opcode.OP_GET_STATE? then ALLOW else DETACHED_ERROR
    case HALTED => if opcode.OP_ATTACH? then ATTACH_BUSY else ALLOW
    case RUNNING =>
      if opcode.OP_ATTACH? then ATTACH_BUSY
      else if opcode.OP_READ_REGISTERS? || opcode.OP_WRITE_REGISTERS? || opcode.OP_RUN? then RUNNING_DENY
      else ALLOW
    case LOST => if opcode.OP_GET_STATE? then ALLOW else LOST_DENY
  }

  /** On a halted target these requests leave the program image as it is. */
  predicate KeepsImage(opcode: Opcode) {
    !(opcode.OP_WRITE_MEMORY? || opcode.OP_RUN? || opcode.OP_RESET_HALT? || opcode.OP_RESET_RUN?)
  }

  /** Requests that halt the target before they answer. */
  predicate Halts(opcode: Opcode) {
    opcode.OP_HALT? || opcode.OP_RESET_HALT? || opcode.OP_RESET_RUN?
  }

  /** How many stop generations such a request opens before it answers, if it succeeds. */
  function Generations(opcode: Opcode, state: TargetState): nat {
    (if state.RUNNING? && Halts(opcode) then 1 else 0) + (if opcode.OP_RESET_HALT? then 1 else 0)
  }

  function Refusal(g: Gate): Status
    requires !g.ALLOW?
  {
    match g
    case ATTACH_BUSY => STATUS_BUSY
    case DETACHED_ERROR => STATUS_ERROR
    case RUNNING_DENY => STATUS_TARGET_RUNNING
    case LOST_DENY => STATUS_TARGET_LOST
  }

  // ---- the attach report ----------------------------------------------------------------

  function Clamp(v: nat, most: nat): nat {
    if v > most then most else v
  }

  /** The report the session stands behind, whatever the backend claimed. */
  function NormalizeAttachInfo(info: AttachInfo): (r: AttachInfo)
    ensures r.hardwareBps <= MAX_HARDWARE_BREAKPOINTS && r.hardwareWps <= MAX_HARDWARE_WATCHPOINTS
    ensures r.caps.hardwareBp <==> r.hardwareBps > 0
    ensures r.caps.watchpoint <==> r.hardwareWps > 0
    ensures r.caps.softwareBp ==> r.caps.singleStep
    ensures r.caps.resetHalt || r.caps.resetRun ==> r.caps.resetSystem || r.caps.resetNrst
    ensures 0 < r.maxTransfer <= MAX_MEMORY_TRANSFER
  {
    var c := info.caps;
    var hwBps, hwWps := Clamp(info.hardwareBps, MAX_HARDWARE_BREAKPOINTS), Clamp(info.hardwareWps, MAX_HARDWARE_WATCHPOINTS);
    var hardwareBp, watchpoint := c.hardwareBp && hwBps != 0, c.watchpoint && hwWps != 0;
    var anyReset := c.resetSystem || c.resetNrst;
    var caps := c.(hardwareBp := hardwareBp, watchpoint := watchpoint, softwareBp := c.softwareBp && c.singleStep,
                   resetHalt := c.resetHalt && anyReset, resetRun := c.resetRun && anyReset);
    var transfer := if info.maxTransfer == 0 then DEFAULT_MAX_MEMORY_TRANSFER else info.maxTransfer;
    info.(caps := caps, hardwareBps := if hardwareBp then hwBps else 0, hardwareWps := if watchpoint then hwWps else 0,
          maxTransfer := Clamp(transfer, MAX_MEMORY_TRANSFER))
  }

  /** Sanitising twice changes nothing: the report is stable. */
  lemma NormalizeIdempotent(info: AttachInfo)
    ensures NormalizeAttachInfo(NormalizeAttachInfo(info)) == NormalizeAttachInfo(info)
  {
  }

  /** Sanitising withdraws no more than it must: a capability goes only with its resource or with the one it
      builds on, a limit is only lowered to what the session can hold, and the rest is what the backend said. */
  lemma NormalizeKeeps(info: AttachInfo)
    ensures var r := NormalizeAttachInfo(info);
            && (r.caps.hardwareBp <==> info.caps.hardwareBp && info.hardwareBps > 0)
            && (r.caps.watchpoint <==> info.caps.watchpoint && info.hardwareWps > 0)
            && (r.caps.softwareBp <==> info.caps.softwareBp && info.caps.singleStep)
            && (r.caps.resetHalt <==> info.caps.resetHalt && (info.caps.resetSystem || info.caps.resetNrst))
            && (r.caps.resetRun <==> info.caps.resetRun && (info.caps.resetSystem || info.caps.resetNrst))
            && r.caps.stopSnapshot == info.caps.stopSnapshot && r.caps.singleStep == info.caps.singleStep
            && r.caps.resetSystem == info.caps.resetSystem && r.caps.resetNrst == info.caps.resetNrst
            && (r.caps.hardwareBp && info.hardwareBps <= 16 ==> r.hardwareBps == info.hardwareBps)
            && (r.caps.hardwareBp && info.hardwareBps > 16 ==> r.hardwareBps == 16)
            && (r.caps.watchpoint && info.hardwareWps <= 16 ==> r.hardwareWps == info.hardwareWps)
            && (r.caps.watchpoint && info.hardwareWps > 16 ==> r.hardwareWps == 16)
            && (0 < info.maxTransfer <= 8160 ==> r.maxTransfer == info.maxTransfer)
            && (info.maxTransfer > 8160 ==> r.maxTransfer == 8160) && (info.maxTransfer == 0 ==> r.maxTransfer == 4096)
            && r.catchMask == info.catchMask && r.regions == info.regions && r.regionBytes == info.regionBytes
  {
  }

  /** The largest snapshot, the largest transfer and the longest memory map fill at most one frame. */
  lemma FramesFit(registers: seq<byte>, stack: seq<byte>, data: seq<byte>, info: AttachInfo, f: Frame)
    requires f.Stopped? && f.registers == registers && f.stack == stack
    ensures |registers| + |stack| == 8192 - 12 - 36 <==> FrameSize(f) == 8192
    ensures FrameSize(Response(OP_READ_MEMORY, 1, STATUS_OK, MemoryBody(0, data))) == 12 + 16 + |data|
    ensures |data| <= MAX_MEMORY_TRANSFER ==> FrameSize(Response(OP_READ_MEMORY, 1, STATUS_OK, MemoryBody(0, data))) <= 8192
    ensures |info.regions| <= 64 ==> FrameSize(Response(OP_ATTACH, 1, STATUS_OK, AttachBody(info))) <= 8192
    ensures FrameSize(Response(OP_READ_REGISTERS, 1, STATUS_OK, RegistersBody(0, 0, registers))) == 12 + 12 + |registers|
  {
  }

  // ---- the memory map ----------------------------------------------------------------------

  predicate Within(r: Region, address: nat, length: nat) {
    r.start + r.length <= UINT64_MAX && r.start <= address && address + length <= r.start + r.length
  }

  /** The first region that holds the whole range, or -1. */
  function RegionOf(regions: seq<Region>, address: nat, length: nat): (k: int)
    ensures -1 <= k < |regions|
    ensures k >= 0 ==> Within(regions[k], address, length)
    ensures k < 0 ==> forall j :: 0 <= j < |regions| ==> !Within(regions[j], address, length)
  {
    if regions == [] then -1
    else if Within(regions[0], address, length) then 0
    else var k := RegionOf(regions[1..], address, length); if k < 0 then -1 else k + 1
  }

  /** Whether region `r` admits an access, and the status that says why not. */
  function Admission(r: Region, address: nat, length: nat, flags: AccessFlags, width: nat, isWrite: bool): Status {
    if r.kind.FLASH? && isWrite then STATUS_UNSUPPORTED
    else if !(if isWrite then r.writable else r.readable) then STATUS_ADDRESS_ERROR
    else if r.kind.MMIO? then
      if !flags.allowMmio then STATUS_ADDRESS_ERROR
      else if width != 1 && width != 2 && width != 4 then STATUS_INVALID_ARGUMENT
      else if length != width then STATUS_INVALID_ARGUMENT
      else if address % width != 0 then STATUS_ALIGNMENT_ERROR
      else STATUS_OK
    else if width != 0 then
      if width != 1 && width != 2 && width != 4 then STATUS_INVALID_ARGUMENT
      else if address % width != 0 || length % width != 0 then STATUS_ALIGNMENT_ERROR
      else STATUS_OK
    else STATUS_OK
  }

  /** What admission means: the region permits the access, never a write to flash; device memory is accessed as
      single aligned items of a size that is named, and only if the request allows it; other memory in whole
      aligned items, or in bytes if no size is named. */
  lemma AdmissionMeans(r: Region, address: nat, length: nat, flags: AccessFlags, width: nat, isWrite: bool)
    ensures Admission(r, address, length, flags, width, isWrite).STATUS_OK? <==>
              && (if isWrite then r.writable && !r.kind.FLASH? else r.readable)
              && (r.kind.MMIO? ==> flags.allowMmio && length == width != 0)
              && (width != 0 ==> (width == 1 || width == 2 || width == 4) && address % width == 0 && length % width == 0)
    ensures Admission(r, address, length, flags, width, isWrite).STATUS_UNSUPPORTED? <==> isWrite && r.kind.FLASH?
    ensures Admission(r, address, length, flags, width, isWrite).STATUS_ADDRESS_ERROR? <==>
              && !(isWrite && r.kind.FLASH?)
              && (!(if isWrite then r.writable else r.readable) || (r.kind.MMIO? && !flags.allowMmio))
  {
  }

  /** Checks an access against the rules of its region. */
  method CheckRegion(r: Region, address: nat, length: nat, flags: AccessFlags, width: nat, isWrite: bool) returns (st: Status)
    ensures st == Admission(r, address, length, flags, width, isWrite)
  {
    if r.kind.FLASH? && isWrite {
      return STATUS_UNSUPPORTED;
    }
    if (isWrite && !r.writable) || (!isWrite && !r.readable) {
      return STATUS_ADDRESS_ERROR;
    }
    if r.kind.MMIO? {
      if !flags.allowMmio {
        return STATUS_ADDRESS_ERROR;
      }
      if (width != 1 && width != 2 && width != 4) || length != width {
        return STATUS_INVALID_ARGUMENT;
      }
      return if address % width != 0 then STATUS_ALIGNMENT_ERROR else STATUS_OK;
    }
    if width == 0 {
      return STATUS_OK;
    }
    if width != 1 && width != 2 && width != 4 {
      return STATUS_INVALID_ARGUMENT;
    }
    st := if address % width != 0 || length % width != 0 then STATUS_ALIGNMENT_ERROR else STATUS_OK;
  }

  /** Checks one memory request against the attached memory map. */
  method ValidateMemoryAccess(regions: seq<Region>, address: nat, length: nat, flags: AccessFlags, width: nat,
                              isWrite: bool) returns (st: Status)
    ensures st == if length == 0 || address + length > UINT64_MAX || RegionOf(regions, address, length) < 0
                  then STATUS_ADDRESS_ERROR
                  else Admission(regions[RegionOf(regions, address, length)], address, length, flags, width, isWrite)
  {
    if length == 0 || address > UINT64_MAX - length {
      return STATUS_ADDRESS_ERROR;
    }
    var index := 0;
    while index < |regions|
      invariant 0 <= index <= |regions|
      invariant RegionOf(regions, address, length) ==
                if RegionOf(regions[index..], address, length) < 0 then -1
                else index + RegionOf(regions[index..], address, length)
    {
      var r := regions[index];
      if r.length <= UINT64_MAX && r.start <= UINT64_MAX - r.length && address >= r.start
         && address + length <= r.start + r.length
      {
        st := CheckRegion(r, address, length, flags, width, isWrite);
        return;
      }
      assert regions[index..][1..] == regions[index + 1..];
      index := index + 1;
    }
    st := STATUS_ADDRESS_ERROR;
  }

  predicate ExecutableIn(r: Region, address: nat, size: nat, requireWritable: bool) {
    Within(r, address, size) && r.executable && (requireWritable ==> r.kind.RAM? && r.readable && r.writable)
  }

  predicate ExecutableRange(regions: seq<Region>, address: nat, size: nat, requireWritable: bool) {
    && size > 0 && address + size <= UINT64_MAX
    && exists k :: 0 <= k < |regions| && ExecutableIn(regions[k], address, size, requireWritable)
  }

  method IsExecutableRange(regions: seq<Region>, address: nat, size: nat, requireWritable: bool) returns (ok: bool)
    ensures ok <==> ExecutableRange(regions, address, size, requireWritable)
  {
    if size == 0 || address > UINT64_MAX - size {
      return false;
    }
    for index := 0 to |regions|
      invariant forall k :: 0 <= k < index ==> !ExecutableIn(regions[k], address, size, requireWritable)
    {
      var r := regions[index];
      if r.length > UINT64_MAX || r.start > UINT64_MAX - r.length || address < r.start || address + size > r.start + r.length {
        continue;
      }
      if !r.executable || (requireWritable && (!r.kind.RAM? || !r.readable || !r.writable)) {
        continue;
      }
      return true;
    }
    ok := false;
  }

  // ---- the lists of a RUN request -----------------------------------------------------------

  const BREAKPOINT_HARDWARE: nat := 1
  const BREAKPOINT_SOFTWARE: nat := 2

  /** The software breakpoints a RUN asks for, in its own order. */
  function SoftwareOf(bps: seq<Breakpoint>): seq<BpEntry> {
    if bps == [] then []
    else SoftwareOf(bps[..|bps| - 1]) +
         (var b := bps[|bps| - 1]; if b.kind == BREAKPOINT_SOFTWARE then [BpEntry(b.id, b.address, b.size)] else [])
  }

  function HardwareOf(bps: seq<Breakpoint>): seq<BpEntry> {
    if bps == [] then []
    else HardwareOf(bps[..|bps| - 1]) +
         (var b := bps[|bps| - 1]; if b.kind == BREAKPOINT_HARDWARE then [BpEntry(b.id, b.address, 0)] else [])
  }

  function WatchpointsOf(wps: seq<Watchpoint>): seq<WpEntry> {
    seq(|wps|, i requires 0 <= i < |wps| => WpEntry(wps[i].id, wps[i].address, wps[i].access, wps[i].size))
  }

  /** The complete configuration a RUN request describes. */
  function RequestedConfig(r: RunRequest): RunConfig {
    RunConfig(SoftwareOf(r.breakpoints), HardwareOf(r.breakpoints), WatchpointsOf(r.watchpoints), r.catchMask)
  }

  /** An entry of the configuration as a breakpoint of the request asks for it. */
  predicate Copies(e: BpEntry, b: Breakpoint) {
    e.id == b.id && e.address == b.address && e.size == if b.kind == 2 then b.size else 0
  }

  /** `e` is the breakpoint at position `i` of the request, which is of this kind. */
  predicate From(bps: seq<Breakpoint>, kind: nat, e: BpEntry, i: nat) {
    i < |bps| && bps[i].kind == kind && Copies(e, bps[i])
  }

  /** `entries` are the breakpoints of one kind, all of them and in their order: the `k`th stands at `at[k]`. */
  predicate PickedAt(bps: seq<Breakpoint>, kind: nat, entries: seq<BpEntry>, at: seq<nat>) {
    && |at| == |entries|
    && (forall k :: 0 <= k < |at| ==> From(bps, kind, entries[k], at[k]))
    && (forall j, k :: 0 <= j < k < |at| ==> at[j] < at[k])
    && forall i :: 0 <= i < |bps| && bps[i].kind == kind ==> i in at
  }

  ghost predicate Picked(bps: seq<Breakpoint>, kind: nat, entries: seq<BpEntry>) {
    exists at: seq<nat> :: PickedAt(bps, kind, entries, at)
  }

  /** `config` is what the request `r` lists: software breakpoints are those of kind 2, hardware breakpoints those
      of kind 1. */
  ghost predicate Mirrors(config: RunConfig, r: RunRequest) {
    && Picked(r.breakpoints, 2, config.sw) && Picked(r.breakpoints, 1, config.hw)
    && |config.wps| == |r.watchpoints|
    && (forall i :: 0 <= i < |config.wps| ==>
          && config.wps[i].id == r.watchpoints[i].id && config.wps[i].address == r.watchpoints[i].address
          && config.wps[i].access == r.watchpoints[i].access && config.wps[i].size == r.watchpoints[i].size)
    && config.catchMask == r.catchMask
  }

  /** One more breakpoint of the list. */
  lemma PickedMore(bps: seq<Breakpoint>, kind: nat, entries: seq<BpEntry>, e: BpEntry)
    requires bps != [] && Picked(bps[..|bps| - 1], kind, entries)
    requires bps[|bps| - 1].kind == kind ==> Copies(e, bps[|bps| - 1])
    ensures Picked(bps, kind, if bps[|bps| - 1].kind == kind then entries + [e] else entries)
  {
    hide PickedAt;
    var n := |bps| - 1;
    var at: seq<nat> :| PickedAt(bps[..n], kind, entries, at);
    PickedNext(bps, kind, entries, e, at);
  }

  lemma PickedNext(bps: seq<Breakpoint>, kind: nat, entries: seq<BpEntry>, e: BpEntry, at: seq<nat>)
    requires bps != [] && PickedAt(bps[..|bps| - 1], kind, entries, at)
    requires bps[|bps| - 1].kind == kind ==> Copies(e, bps[|bps| - 1])
    ensures if bps[|bps| - 1].kind == kind then PickedAt(bps, kind, entries + [e], at + [|bps| - 1]) else PickedAt(bps, kind, entries, at)
  {
    hide From;
    var n := |bps| - 1;
    FromStill(bps, kind, entries, at);
    assert From(bps, kind, e, n) <== bps[n].kind == kind by { FromLast(bps, kind, e); }
    assert forall i :: 0 <= i < n ==> bps[..n][i] == bps[i];
    var at' := at + [n];
    assert at'[|at|] == n;
    assert forall i :: i in at ==> i in at';
  }

  lemma FromStill(bps: seq<Breakpoint>, kind: nat, entries: seq<BpEntry>, at: seq<nat>)
    requires bps != [] && |at| == |entries| && forall k :: 0 <= k < |at| ==> From(bps[..|bps| - 1], kind, entries[k], at[k])
    ensures forall k :: 0 <= k < |at| ==> at[k] < |bps| - 1 && From(bps, kind, entries[k], at[k])
  {
    forall k | 0 <= k < |at| ensures at[k] < |bps| - 1 && From(bps, kind, entries[k], at[k]) {
      assert From(bps[..|bps| - 1], kind, entries[k], at[k]);
    }
  }

  lemma FromLast(bps: seq<Breakpoint>, kind: nat, e: BpEntry)
    requires bps != [] && (bps[|bps| - 1].kind == kind ==> Copies(e, bps[|bps| - 1]))
    ensures bps[|bps| - 1].kind == kind ==> From(bps, kind, e, |bps| - 1)
  {
  }

  lemma {:induction false} BreakpointsPicked(bps: seq<Breakpoint>)
    ensures Picked(bps, 2, SoftwareOf(bps)) && Picked(bps, 1, HardwareOf(bps))
  {
    hide Picked;
    if bps == [] {
      NothingPicked(bps, 1);
      NothingPicked(bps, 2);
    } else {
      var b, rest := bps[|bps| - 1], bps[..|bps| - 1];
      assert SoftwareOf(rest) + [] == SoftwareOf(rest) && HardwareOf(rest) + [] == HardwareOf(rest);
      BreakpointsPicked(bps[..|bps| - 1]);
      PickedMore(bps, 2, SoftwareOf(bps[..|bps| - 1]), BpEntry(b.id, b.address, b.size));
      PickedMore(bps, 1, HardwareOf(bps[..|bps| - 1]), BpEntry(b.id, b.address, 0));
    }
  }

  lemma NothingPicked(bps: seq<Breakpoint>, kind: nat)
    requires bps == []
    ensures Picked(bps, kind, [])
  {
    assert PickedAt(bps, kind, [], []);
  }

  /** The configuration of a request is what the request lists. */
  lemma ConfigMirrors(r: RunRequest)
    ensures Mirrors(RequestedConfig(r), r)
  {
    BreakpointsPicked(r.breakpoints);
  }

  const RUN_CONTINUE: nat := 1
  const RUN_SINGLE_STEP: nat := 2
  const RUN_TO_ADDRESS: nat := 3

  function RunActionOf(action: nat): RunAction {
    if action == RUN_SINGLE_STEP then SingleStep else if action == RUN_TO_ADDRESS then ToAddress else Continue
  }

  /** Whether some comparator of `hw` already watches `address`. */
  method Reuses(hw: seq<BpEntry>, address: nat) returns (found: bool)
    ensures found <==> exists k :: 0 <= k < |hw| && hw[k].address == address
  {
    for index := 0 to |hw|
      invariant forall k :: 0 <= k < index ==> hw[k].address != address
    {
      if hw[index].address == address {
        return true;
      }
    }
    found := false;
  }

  /** A breakpoint of a RUN request that the session can set, whatever the others are. */
  predicate Settable(b: Breakpoint, caps: Caps, regions: seq<Region>) {
    && b.id != 0 && b.enabled == 1 && b.address % 2 == 0
    && if b.kind == 2 then
         caps.softwareBp && (b.size == 2 || b.size == 4) && ExecutableRange(regions, b.address, b.size, true)
       else
         b.kind == 1 && caps.hardwareBp && b.size == 0 && ExecutableRange(regions, b.address, 2, false)
  }

  /** A software breakpoint is only set in executable RAM that the session can read and write, since it is patched
      there, and a hardware breakpoint only where the target can execute. */
  lemma SettableMeans(b: Breakpoint, caps: Caps, regions: seq<Region>)
    requires Settable(b, caps, regions)
    ensures exists k :: 0 <= k < |regions| && var r := regions[k];
              && r.executable && r.start <= b.address && b.address + (if b.kind == 2 then b.size else 2) <= r.start + r.length
              && (b.kind == 2 ==> r.kind.RAM? && r.readable && r.writable)
    ensures b.kind == 1 || b.kind == 2
  {
    var size := if b.kind == 2 then b.size else 2;
    var k :| 0 <= k < |regions| && ExecutableIn(regions[k], b.address, size, b.kind == 2);
  }

  /** The whole breakpoint list can be set. */
  ghost predicate AllSettable(bps: seq<Breakpoint>, caps: Caps, hwLimit: nat, regions: seq<Region>) {
    && (forall i :: 0 <= i < |bps| ==> Settable(bps[i], caps, regions))
    && |SoftwareOf(bps)| <= 32 && |HardwareOf(bps)| <= hwLimit
  }

  /** A longer list asks for no fewer slots. */
  lemma {:induction false} SlotsGrow(bps: seq<Breakpoint>, n: nat)
    requires n <= |bps|
    ensures |SoftwareOf(bps[..n])| <= |SoftwareOf(bps)| && |HardwareOf(bps[..n])| <= |HardwareOf(bps)|
    decreases |bps| - n
  {
    if n == |bps| {
      assert bps[..n] == bps;
    } else {
      assert bps[..n + 1][..n] == bps[..n];
      SlotsGrow(bps, n + 1);
    }
  }

  /** Sorts the breakpoint list into its software and hardware parts, checking each entry. */
  method SortBreakpoints(bps: seq<Breakpoint>, caps: Caps, hwLimit: nat, regions: seq<Region>)
    returns (st: Status, sw: seq<BpEntry>, hw: seq<BpEntry>)
    ensures st.STATUS_OK? <==> AllSettable(bps, caps, hwLimit, regions)
    ensures st.STATUS_OK? ==> sw == SoftwareOf(bps) && hw == HardwareOf(bps)
    ensures forall k :: 0 <= k < |sw| ==> Site(sw[k])
    ensures !st.STATUS_OK? && (forall i :: 0 <= i < |bps| ==> Settable(bps[i], caps, regions)) ==> st.STATUS_NO_BREAKPOINT_SLOT?
  {
    sw, hw := [], [];
    for index := 0 to |bps|
      invariant sw == SoftwareOf(bps[..index]) && hw == HardwareOf(bps[..index])
      invariant |sw| <= MAX_SOFTWARE_BREAKPOINTS && |hw| <= hwLimit
      invariant forall k :: 0 <= k < |sw| ==> Site(sw[k])
      invariant forall k :: 0 <= k < index ==> Settable(bps[k], caps, regions)
    {
      var entry := bps[index];
      assert bps[..index + 1][..index] == bps[..index];
      SlotsGrow(bps, index + 1);
      if entry.id == 0 || entry.enabled != 1 || (entry.kind != BREAKPOINT_HARDWARE && entry.kind != BREAKPOINT_SOFTWARE) {
        return STATUS_INVALID_ARGUMENT, sw, hw;
      }
      if entry.kind == BREAKPOINT_SOFTWARE {
        if !caps.softwareBp {
          return STATUS_NO_BREAKPOINT_SLOT, sw, hw;
        }
        var executable := IsExecutableRange(regions, entry.address, entry.size, true);
        if (entry.size != 2 && entry.size != 4) || entry.address % 2 != 0 || !executable {
          return STATUS_INVALID_ARGUMENT, sw, hw;
        }
        if |sw| == MAX_SOFTWARE_BREAKPOINTS {
          return STATUS_NO_BREAKPOINT_SLOT, sw, hw;
        }
        sw := sw + [BpEntry(entry.id, entry.address, entry.size)];
      } else {
        if !caps.hardwareBp || hwLimit == 0 {
          return STATUS_NO_BREAKPOINT_SLOT, sw, hw;
        }
        var executable := IsExecutableRange(regions, entry.address, 2, false);
        if entry.size != 0 || entry.address % 2 != 0 || !executable {
          return STATUS_INVALID_ARGUMENT, sw, hw;
        }
        if |hw| >= hwLimit {
          return STATUS_NO_BREAKPOINT_SLOT, sw, hw;
        }
        hw := hw + [BpEntry(entry.id, entry.address, 0)];
      }
    }
    assert bps[..|bps|] == bps;
    st := STATUS_OK;
  }

  predicate Watchable(w: Watchpoint) {
    && w.id != 0 && w.enabled == 1 && (w.access == 1 || w.access == 2 || w.access == 3)
    && (w.size == 1 || w.size == 2 || w.size == 4) && w.address % w.size == 0
  }

  /** Checks the watchpoint list. */
  method CheckWatchpoints(wps: seq<Watchpoint>) returns (st: Status, entries: seq<WpEntry>)
    ensures st.STATUS_OK? <==> forall i :: 0 <= i < |wps| ==> Watchable(wps[i])
    ensures st.STATUS_OK? ==> entries == WatchpointsOf(wps)
    ensures st.STATUS_OK? || st.STATUS_ALIGNMENT_ERROR? || st.STATUS_INVALID_ARGUMENT?
  {
    entries := [];
    for index := 0 to |wps|
      invariant |entries| == index && entries == WatchpointsOf(wps)[..index]
      invariant forall i :: 0 <= i < index ==> Watchable(wps[i])
    {
      var entry := wps[index];
      if entry.id == 0 || entry.enabled != 1 || (entry.access != 1 && entry.access != 2 && entry.access != 3)
         || (entry.size != 1 && entry.size != 2 && entry.size != 4) {
        return STATUS_INVALID_ARGUMENT, entries;
      }
      if entry.address % entry.size != 0 {
        return STATUS_ALIGNMENT_ERROR, entries;
      }
      entries := entries + [WpEntry(entry.id, entry.address, entry.access, entry.size)];
    }
    assert WatchpointsOf(wps)[..|wps|] == WatchpointsOf(wps);
    st := STATUS_OK;
  }
}
