/** The hardware target and the backend that drives it, as the session's backend contract
    describes them. Every call may fail; what a failing call may leave behind is part of its
    specification. The ghost fields are the physical truth the session cannot see. */
module TargetBackend {
  import opened Machine
  import opened Registers

  /** Result codes, as far as the session tells them apart. */
  datatype Err = OK | FAIL | TIMEOUT | REJECTED

  /** Cause bits of a debug stop. */
  datatype Dfsr = Dfsr(halted: bool, bkpt: bool, dwttrap: bool, vcatch: bool, external: bool)

  datatype StopDetect = StopDetect(
    halted: bool, dfsr: Dfsr, lockup: bool, pc: u32, comparatorMatch: bool, comparatorIndex: nat,
    watchpointMatch: bool, watchpointAddress: nat, fault: bool)

  const NO_STOP := StopDetect(false, Dfsr(false, false, false, false, false), false, 0, false, 0, false, 0, false)

  datatype BpEntry = BpEntry(id: nat, address: nat, size: nat)
  /** A breakpoint request the memory map has already admitted. */
  predicate Site(e: BpEntry) {
    (e.size == 2 || e.size == 4) && e.address % 2 == 0
  }

  datatype WpEntry = WpEntry(id: nat, address: nat, access: nat, size: nat)

  datatype RunAction = Continue | SingleStep | ToAddress
  datatype DetachAction = KeepHalted | Resume

  datatype MemoryType = RAM | FLASH | MMIO

  datatype Region = Region(start: nat, length: nat, kind: MemoryType, readable: bool, writable: bool, executable: bool)

  datatype Caps = Caps(
    stopSnapshot: bool, softwareBp: bool, hardwareBp: bool, watchpoint: bool, singleStep: bool,
    resetHalt: bool, resetSystem: bool, resetNrst: bool, resetRun: bool)

  /** Bytes of one record of the raw region list. */
  const REGION_BYTES: nat := 20

  /** Resources as the backend reports them. `regionBytes` is the size of the raw region list, which
      need not be a whole number of records. */
  datatype AttachInfo = AttachInfo(
    caps: Caps, hardwareBps: nat, hardwareWps: nat, maxTransfer: nat, catchMask: set<nat>,
    regionBytes: nat, regions: seq<Region>)

  /** The configuration one RUN request asks for. */
  datatype RunConfig = RunConfig(sw: seq<BpEntry>, hw: seq<BpEntry>, wps: seq<WpEntry>, catchMask: set<nat>)

  /** Everything physical at the moment a core is released. */
  datatype Snapshot = Snapshot(
    table: seq<SwBp>, mem: Mem, image: Mem, pc: u32,
    hw: seq<BpEntry>, wps: seq<WpEntry>, catchMask: set<nat>)

  /** Why the core is let go: one internal instruction of a step-over, or the RUN itself. */
  datatype Purpose = StepOver(address: nat) | Run(action: RunAction, runTo: nat)

  /** The backend calls of a session, in order. Calls during which a target may run, and calls that store
      for the peer, carry the shadow table in force and the program image they leave. */
  datatype Call =
    | Attached(ok: bool, info: AttachInfo, image: Mem)
    | Detached(action: DetachAction, ok: bool, at: Snapshot)
    | WasReset(halt: bool, ok: bool, image: Mem)
    | Polled(ok: bool, halted: bool, table: seq<SwBp>, image: Mem)
    | HaltConfirmed(ok: bool, seen: bool, table: seq<SwBp>, image: Mem)
    | Resumed(purpose: Purpose, config: RunConfig, at: Snapshot, ok: bool)
    | PatchWrite(address: nat, ok: bool)
    | RestoreWrite(address: nat, ok: bool)
    | MemoryRead(ok: bool, table: seq<SwBp>, image: Mem)
    | PeerWrite(address: nat, data: seq<byte>, ok: bool, table: seq<SwBp>, found: Mem, image: Mem)
    | RegistersRead(usable: bool, blob: seq<byte>)
    | RegistersWritten(list: seq<byte>, ok: bool)
    | Transfer(ok: bool)

  function Last<T>(s: seq<T>): T
    requires s != []
  {
    s[|s| - 1]
  }

  /** A call that did not do what it was asked for. */
  predicate Failing(c: Call) {
    if c.RegistersRead? then !c.usable else !c.ok
  }

  /** Some call since `t` failed. */
  ghost predicate Faulty(t: seq<Call>, t': seq<Call>) {
    exists i :: |t| <= i < |t'| && Failing(t'[i])
  }

  lemma FaultyLast(t: seq<Call>, c: Call)
    requires Failing(c)
    ensures Faulty(t, t + [c])
  {
    assert (t + [c])[|t|] == c;
  }

  lemma FaultyOn(t: seq<Call>, mid: seq<Call>, t': seq<Call>)
    requires t <= mid <= t' && (Faulty(t, mid) || Faulty(mid, t'))
    ensures Faulty(t, t')
  {
    if Faulty(t, mid) {
      var i :| |t| <= i < |mid| && Failing(mid[i]);
      assert Failing(t'[i]);
    }
  }

  // ---- what a call history says -------------------------------------------------

  /** The target was confirmed halted after the last resume, reset or attach of `trace`. */
  ghost predicate HaltKnown(trace: seq<Call>) {
    trace != [] &&
    match trace[|trace| - 1]
    case Attached(_, _, _) => false
    case Detached(_, ok, _) => !ok && HaltKnown(trace[..|trace| - 1])
    case WasReset(halt, ok, _) => halt && ok
    case Polled(_, halted, _, _) => halted || HaltKnown(trace[..|trace| - 1])
    case HaltConfirmed(ok, _, _, _) => ok || HaltKnown(trace[..|trace| - 1])
    case Resumed(_, _, _, _) => false
    case _ => HaltKnown(trace[..|trace| - 1])
  }

  /** Calls that leave an image of their own. */
  predicate CarriesImage(c: Call) {
    c.Attached? || c.WasReset? || c.Polled? || c.HaltConfirmed? || c.MemoryRead? || c.PeerWrite?
  }

  /** The program image after `trace`, from the image `start`. */
  ghost function ImageAfter(start: Mem, trace: seq<Call>): Mem {
    if trace == [] then start
    else
      var c := trace[|trace| - 1];
      if CarriesImage(c) then c.image else ImageAfter(start, trace[..|trace| - 1])
  }

  /** What the program may do to its image in passing: nothing on a halted target, and otherwise anything
      but to write an instruction the table remembers. */
  ghost predicate Moved(known: bool, table: seq<SwBp>, img: Mem, img': Mem) {
    if known then img' == img else Spared(table, img, img')
  }

  /** What a write of the peer does to the image: all of it, or after a failure any part of it that no
      patch hides. */
  ghost predicate Wrote(address: nat, data: seq<byte>, ok: bool, table: seq<SwBp>, img: Mem, img': Mem) {
    if ok then Same(img', Write(img, address, data))
    else forall a: int :: img'.At(a) == img.At(a) ||
           (!Covered(table, a) && address <= a < address + |data| && img'.At(a) == data[a - address])
  }

  /** How one call may change the image `img`, on a target known to be halted or not. */
  ghost predicate ImageStep(known: bool, img: Mem, c: Call) {
    match c
    case Polled(_, _, table, image) => Moved(known, table, img, image)
    case HaltConfirmed(_, _, table, image) => Moved(known, table, img, image)
    case MemoryRead(_, table, image) => Moved(known, table, img, image)
    case PeerWrite(address, data, ok, table, found, image) =>
      Moved(known, table, img, found) && Wrote(address, data, ok, table, found, image)
    case _ => true
  }

  predicate SameSites(es: seq<SwBp>, sw: seq<BpEntry>) {
    |es| == |sw| && forall k :: 0 <= k < |es| ==>
      es[k].id == sw[k].id && es[k].address == sw[k].address && es[k].size == sw[k].size
  }

  /** The hardware side of `config` is in force at `at`, and the table holds its software side. */
  ghost predicate Configured(config: RunConfig, at: Snapshot) {
    && TableOk(at.table)
    && SameSites(at.table, config.sw)
    && at.hw == config.hw
    && at.wps == config.wps
    && at.catchMask == config.catchMask
  }

  /** A core about to execute the instruction under a lifted breakpoint. */
  ghost predicate ReadyToStep(address: nat, at: Snapshot) {
    && at.pc == address
    && (forall a: int :: address <= a < address + 2 ==> at.mem.At(a) == at.image.At(a))
    && (forall k, a: int :: 0 <= k < |at.table| && at.table[k].address == address && Owns(at.table[k], a) ==>
          at.mem.At(a) == at.image.At(a))
    && exists skip :: ArmedExcept(at.table, skip, at.mem, at.image) &&
         (0 <= skip < |at.table| ==> at.table[skip].address == address)
  }

  /** A release is proper: the whole configuration is in force, and the code is what it must be. */
  ghost predicate ProperRelease(purpose: Purpose, config: RunConfig, at: Snapshot) {
    && Configured(config, at)
    && match purpose
       case StepOver(address) => ReadyToStep(address, at)
       case Run(_, _) => Armed(at.table, at.mem, at.image)
  }

  /** The demands on one call, given the calls before it. */
  ghost predicate Permitted(start: Mem, before: seq<Call>, c: Call) {
    && ImageStep(HaltKnown(before), ImageAfter(start, before), c)
    && match c
       case PatchWrite(_, _) => HaltKnown(before)
       case RestoreWrite(_, _) => HaltKnown(before)
       case Resumed(purpose, config, at, _) => HaltKnown(before) && ProperRelease(purpose, config, at)
       case Detached(_, ok, at) => HaltKnown(before) && (ok ==> at.table == [] && Same(at.mem, at.image))
       case _ => true
  }

  ghost predicate Disciplined(start: Mem, trace: seq<Call>) {
    trace == [] ||
    (Disciplined(start, trace[..|trace| - 1]) && Permitted(start, trace[..|trace| - 1], trace[|trace| - 1]))
  }

  lemma Snoc(start: Mem, trace: seq<Call>, c: Call)
    ensures (trace + [c])[..|trace + [c]| - 1] == trace
    ensures Disciplined(start, trace + [c]) <==> Disciplined(start, trace) && Permitted(start, trace, c)
    ensures Resumes(trace + [c]) == Resumes(trace) + (if c.Resumed? then [c] else [])
    ensures ImageAfter(start, trace + [c]) == if CarriesImage(c) then c.image else ImageAfter(start, trace)
  {
    assert (trace + [c])[..|trace + [c]| - 1] == trace;
  }

  /** The moments at which the core was let go, in order. */
  ghost function Resumes(trace: seq<Call>): seq<Call> {
    if trace == [] then []
    else Resumes(trace[..|trace| - 1]) + (if trace[|trace| - 1].Resumed? then [trace[|trace| - 1]] else [])
  }

  predicate ConfirmsHalt(c: Call) {
    (c.HaltConfirmed? && c.ok) || (c.Polled? && c.halted) || (c.WasReset? && c.halt && c.ok)
  }

  predicate LosesHalt(c: Call) {
    c.Attached? || c.Resumed? || (c.WasReset? && !(c.halt && c.ok)) || (c.Detached? && c.ok)
  }

  /** What `HaltKnown` means: some call confirmed the halt, and no later one gave it up. */
  lemma {:induction false} HaltKnownMeans(trace: seq<Call>)
    ensures HaltKnown(trace) <==>
              exists j :: 0 <= j < |trace| && ConfirmsHalt(trace[j]) &&
                forall k :: j < k < |trace| ==> !LosesHalt(trace[k])
  {
    if trace != [] {
      var n := |trace| - 1;
      HaltKnownMeans(trace[..n]);
      HaltKnownStep(trace);
      hide HaltKnown, ConfirmsHalt, LosesHalt;
      assert forall k :: 0 <= k < n ==> trace[..n][k] == trace[k];
      if HaltKnown(trace) && !ConfirmsHalt(trace[n]) {
        var j :| 0 <= j < n && ConfirmsHalt(trace[..n][j]) && forall k :: j < k < n ==> !LosesHalt(trace[..n][k]);
        assert ConfirmsHalt(trace[j]) && forall k :: j < k < |trace| ==> !LosesHalt(trace[k]);
      }
    }
  }

  lemma HaltKnownStep(trace: seq<Call>)
    requires trace != []
    ensures HaltKnown(trace) == HaltAfter(HaltKnown(trace[..|trace| - 1]), trace[|trace| - 1])
  {
  }

  /** Discipline, spelled out for every position of the history. */
  lemma {:induction false} DisciplinedEverywhere(start: Mem, trace: seq<Call>, i: nat)
    requires Disciplined(start, trace) && i < |trace|
    ensures Permitted(start, trace[..i], trace[i])
  {
    var n := |trace| - 1;
    if i < n {
      DisciplinedEverywhere(start, trace[..n], i);
      assert trace[..n][..i] == trace[..i];
    }
  }

  /** In every disciplined history, each write that installs or removes a patch comes after a
      confirmed halt with no resume, reset or attach in between. */
  lemma {:induction false} PatchWritesOnlyWhileHalted(start: Mem, trace: seq<Call>, i: nat)
    requires Disciplined(start, trace) && i < |trace| && (trace[i].PatchWrite? || trace[i].RestoreWrite?)
    ensures exists j :: 0 <= j < i && ConfirmsHalt(trace[j]) && forall k :: j < k < i ==> !LosesHalt(trace[k])
  {
    hide ImageStep;
    DisciplinedEverywhere(start, trace, i);
    HaltKnownMeans(trace[..i]);
    var j :| 0 <= j < i && ConfirmsHalt(trace[..i][j]) && forall k :: j < k < i ==> !LosesHalt(trace[..i][k]);
    assert ConfirmsHalt(trace[j]);
    forall k | j < k < i ensures !LosesHalt(trace[k]) {
      assert trace[..i][k] == trace[k];
    }
  }

  // ---- where every byte of the image comes from ----------------------------------------

  /** Calls that may replace what the program left at `a`: a load of the whole target, or a write of the
      peer that covers `a`, and succeeds if a patch hides it. */
  predicate Rewrites(c: Call, a: int) {
    c.Attached? || c.WasReset? ||
    (c.PeerWrite? && c.address <= a < c.address + |c.data| && (c.ok || !Covered(c.table, a)))
  }

  /** Call `i` found the target running, and let the program at byte `a`, which no remembered
      instruction owned. */
  ghost predicate RanOver(trace: seq<Call>, i: nat, a: int)
    requires i < |trace|
  {
    && (trace[i].Polled? || trace[i].HaltConfirmed? || trace[i].MemoryRead? || trace[i].PeerWrite?)
    && !HaltKnown(trace[..i]) && !Owned(trace[i].table, a)
  }

  /** Each byte of the image that is not what it was when the history was |t| calls long was rewritten by a
      load or by the peer, or belonged to a running program. */
  ghost predicate Accounted(t: seq<Call>, t': seq<Call>, img: Mem, img': Mem) {
    && t <= t'
    && forall a: int :: img'.At(a) != img.At(a) ==>
         exists i :: |t| <= i < |t'| && (Rewrites(t'[i], a) || RanOver(t', i, a))
  }

  lemma StepAccounted(start: Mem, trace: seq<Call>, a: int)
    requires trace != [] && Permitted(start, trace[..|trace| - 1], trace[|trace| - 1])
    requires ImageAfter(start, trace).At(a) != ImageAfter(start, trace[..|trace| - 1]).At(a)
    ensures Rewrites(trace[|trace| - 1], a) || RanOver(trace, |trace| - 1, a)
  {
    hide HaltKnown, Covered, Owned;
  }

  /** In every disciplined history the program image changes, byte by byte, only by what the program does
      while it runs, by what the peer writes, and by attach and reset: never by a patch, a restore, a
      step-over or the table's housekeeping. */
  lemma {:induction false} ImageAccounted(start: Mem, t: seq<Call>, t': seq<Call>)
    requires Disciplined(start, t') && t <= t'
    ensures Accounted(t, t', ImageAfter(start, t), ImageAfter(start, t'))
    decreases |t'|
  {
    hide ImageAfter, Permitted, HaltKnown, Rewrites;
    if t != t' {
      var n := |t'| - 1;
      ImageAccounted(start, t, t'[..n]);
      forall a: int | ImageAfter(start, t').At(a) != ImageAfter(start, t).At(a)
        ensures exists i :: |t| <= i < |t'| && (Rewrites(t'[i], a) || RanOver(t', i, a))
      {
        if ImageAfter(start, t').At(a) != ImageAfter(start, t'[..n]).At(a) {
          StepAccounted(start, t', a);
        } else {
          var i :| |t| <= i < n && (Rewrites(t'[..n][i], a) || RanOver(t'[..n], i, a));
          assert t'[..n][..i] == t'[..i] && t'[..n][i] == t'[i];
        }
      }
    }
  }

  /** A completed write of the peer puts exactly its data into the image it finds; a failed one puts some of
      it where no patch hides the byte, and nothing else. */
  lemma PeerWriteAccounted(start: Mem, trace: seq<Call>, i: nat)
    requires Disciplined(start, trace) && i < |trace| && trace[i].PeerWrite?
    ensures var c := trace[i];
            && Moved(HaltKnown(trace[..i]), c.table, ImageAfter(start, trace[..i]), c.found)
            && Wrote(c.address, c.data, c.ok, c.table, c.found, ImageAfter(start, trace[..i + 1]))
  {
    hide Wrote, Moved;
    DisciplinedEverywhere(start, trace, i);
    assert trace[..i + 1][..i] == trace[..i];
  }

  /** Whether the target is known to be halted after one more call. */
  predicate HaltAfter(before: bool, c: Call) {
    ConfirmsHalt(c) || (before && !LosesHalt(c))
  }

  /** One write on behalf of the peer, on a target that is not running meanwhile. */
  ghost predicate PeerStored(addr: nat, stored: seq<byte>, data: seq<byte>, es: seq<SwBp>, ok: bool,
                             mem: Mem, img: Mem, mem': Mem, img': Mem)
    requires |stored| == |data|
  {
    if ok then
      Same(mem', Write(mem, addr, stored)) && Same(img', Write(img, addr, data))
    else
      Torn(mem, mem', addr, stored) && forall a: int :: img'.At(a) == if Covered(es, a) then img.At(a) else mem'.At(a)
  }

  /** The same write when the target may be running: the program may have moved on before it. */
  ghost predicate PeerWrote(addr: nat, stored: seq<byte>, data: seq<byte>, es: seq<SwBp>, ok: bool,
                            mem: Mem, img: Mem, mem': Mem, img': Mem, halted: bool)
    requires |stored| == |data|
  {
    if halted then PeerStored(addr, stored, data, es, ok, mem, img, mem', img')
    else exists m, i :: ProgramRan(es, mem, img, m, i) && PeerStored(addr, stored, data, es, ok, m, i, mem', img')
  }

  /** What a peer write leaves in the image, seen from the image alone. */
  lemma TornReaches(addr: nat, stored: seq<byte>, data: seq<byte>, es: seq<SwBp>, mem: Mem, img: Mem, mem': Mem, img': Mem, ok: bool)
    requires |stored| == |data| && Tracks(es, mem, img)
    requires forall i :: 0 <= i < |data| && !Covered(es, addr + i) ==> stored[i] == data[i]
    requires if ok then Same(img', Write(img, addr, data))
             else Torn(mem, mem', addr, stored) && forall a: int :: img'.At(a) == if Covered(es, a) then img.At(a) else mem'.At(a)
    ensures Wrote(addr, data, ok, es, img, img')
  {
    if !ok {
      forall a: int ensures img'.At(a) == img.At(a) ||
                            (!Covered(es, a) && addr <= a < addr + |data| && img'.At(a) == data[a - addr])
      {
        if !Covered(es, a) && addr <= a < addr + |data| {
          assert !Covered(es, addr + (a - addr));
        }
      }
    }
  }

  // ---- the target and its backend -------------------------------------------------

  /** The physical target behind the backend interface. Calls are nondeterministic within the
      backend contract. `es` is the session's shadow table, through which a running program's
      effect on memory and image is described. */
  class Target {
    var mem: Mem
    var pc: u32
    var hw: seq<BpEntry>
    var wps: seq<WpEntry>
    var catchMask: set<nat>
    var halted: bool
    ghost var image: Mem
    ghost var trace: seq<Call>
    ghost var resumes: seq<Call>
    /** What the last call answered. */
    ghost var answer: Err
    /** The image before the first call. */
    ghost const origin: Mem

    /** The history is disciplined, and what it says of the target is so: in particular, every change of the
        program image since the first call is accounted for by one of the calls. */
    ghost predicate Valid()
      reads this
    {
      && Disciplined(origin, trace) && halted == HaltKnown(trace) && resumes == Resumes(trace)
      && image == ImageAfter(origin, trace)
    }

    ghost function At(es: seq<SwBp>): Snapshot
      reads this
    {
      Snapshot(es, mem, image, pc, hw, wps, catchMask)
    }

    constructor ()
      ensures Valid() && !halted && trace == [] && Same(mem, image)
    {
      mem := Mem(a => 0);
      image := Mem(a => 0);
      origin := image;
      pc, hw, wps, catchMask, halted, trace, resumes := 0, [], [], {}, false, [], [];
      answer := OK;
    }

    /** Time passes: a target that is not known to be halted may execute its program. */
    method Elapse(es: seq<SwBp>)
      requires Tracks(es, mem, image)
      modifies this`mem, this`image, this`pc
      ensures halted ==> mem == old(mem) && image == old(image) && pc == old(pc)
      ensures !halted ==> ProgramRan(es, old(mem), old(image), mem, image)
      ensures Tracks(es, mem, image)
    {
      if !halted {
        var after: Mem := *;
        var m := mem;
        ghost var i := image;
        mem := Mem((a: int) => if Owned(es, a) then m.At(a) else after.At(a));
        image := Mem((a: int) => if Owned(es, a) then i.At(a) else after.At(a));
        pc := *;
        ProgramRanTracks(es, m, i, mem, image);
      }
    }

    /** Records one call. */
    method Log(ghost c: Call, known: bool, ghost e: Err)
      requires Disciplined(origin, trace) && halted == HaltKnown(trace) && resumes == Resumes(trace)
      requires Permitted(origin, trace, c) && known == HaltAfter(halted, c)
      requires image == if CarriesImage(c) then c.image else ImageAfter(origin, trace)
      modifies this`trace, this`answer, this`halted, this`resumes
      ensures Valid() && trace == old(trace) + [c]
      ensures halted == known
      ensures resumes == if c.Resumed? then old(resumes) + [c] else old(resumes)
      ensures answer == e
    {
      Snoc(origin, trace, c);
      halted, answer := known, e;
      trace := trace + [c];
      if c.Resumed? {
        resumes := resumes + [c];
      }
    }

    /** attach: connects to whatever the target holds; nothing is patched yet. */
    method Attach() returns (e: Err, info: AttachInfo)
      requires Valid()
      modifies this
      ensures Valid() && !halted && Same(mem, image)
      ensures resumes == old(resumes) && trace == old(trace) + [Attached(e.OK?, info, image)]
      ensures e.OK? ==> hw == [] && wps == [] && catchMask == {}
      ensures |info.regions| == info.regionBytes / REGION_BYTES
      ensures answer == e
    {
      hide Disciplined, HaltKnown, Resumes, ImageAfter;
      e := *;
      info := *;
      if |info.regions| != info.regionBytes / REGION_BYTES {
        info := info.(regionBytes := |info.regions| * REGION_BYTES);
      }
      var found: Mem := *;
      mem, image := found, found;
      pc := *;
      hw, wps, catchMask := [], [], {};
      Log(Attached(e.OK?, info, image), false, e);
    }

    /** detach: restores the comparators it programmed and applies the final action. A failed
        detach releases nothing. */
    method Detach(action: DetachAction, es: seq<SwBp>) returns (e: Err)
      requires Valid() && halted && es == [] && Same(mem, image)
      modifies this`trace, this`answer, this`halted, this`resumes, this`hw, this`wps, this`catchMask
      ensures Valid()
      ensures resumes == old(resumes) && trace == old(trace) + [Detached(action, e.OK?, old(At(es)))]
      ensures halted == !e.OK?
      ensures !e.OK? ==> hw == old(hw) && wps == old(wps) && catchMask == old(catchMask)
      ensures answer == e
    {
      hide Disciplined, HaltKnown, Resumes, ImageAfter;
      e := *;
      Log(Detached(action, e.OK?, At(es)), !e.OK?, e);
      if e.OK? {
        hw, wps, catchMask := [], [], {};
      }
    }

    /** reset: after a failed reset the target may be in any state. */
    method Reset(haltAfter: bool) returns (e: Err, stop: StopDetect)
      requires Valid() && Same(mem, image)
      modifies this`mem, this`image, this`pc, this`trace, this`answer, this`halted, this`resumes
      ensures Valid() && Same(mem, image)
      ensures resumes == old(resumes) && trace == old(trace) + [WasReset(haltAfter, e.OK?, image)]
      ensures halted == (haltAfter && e.OK?)
      ensures haltAfter && e.OK? ==> stop.pc == pc
      ensures answer == e
    {
      hide Disciplined, HaltKnown, Resumes, ImageAfter;
      e := *;
      var after: Mem := *;
      mem, image := after, after;
      pc := *;
      stop := Observe(haltAfter && e.OK?);
      Log(WasReset(haltAfter, e.OK?, image), haltAfter && e.OK?, e);
    }

    /** An observation of a stopped or running core. */
    method Observe(stopped: bool) returns (stop: StopDetect)
      ensures stop.halted == stopped
      ensures stopped ==> stop.pc == pc
    {
      stop := *;
      stop := stop.(halted := stopped, pc := if stopped then pc else stop.pc);
    }

    /** poll_halted: an error means the observation failed, not that the target runs. */
    method PollHalted(es: seq<SwBp>) returns (e: Err, stop: StopDetect)
      requires Valid() && Tracks(es, mem, image)
      modifies this`mem, this`image, this`pc, this`trace, this`answer, this`halted, this`resumes
      ensures Valid() && Tracks(es, mem, image)
      ensures resumes == old(resumes) && trace == old(trace) + [Polled(e.OK?, e.OK? && stop.halted, es, image)]
      ensures halted == (old(halted) || (e.OK? && stop.halted))
      ensures e.OK? && stop.halted ==> stop.pc == pc
      ensures old(halted) ==> mem == old(mem) && image == old(image) && pc == old(pc)
      ensures !old(halted) ==> ProgramRan(es, old(mem), old(image), mem, image)
      ensures old(halted) && e.OK? ==> stop.halted
      ensures answer == e
    {
      hide Disciplined, HaltKnown, Resumes, ImageAfter;
      Elapse(es);
      e := *;
      var running := *;
      stop := Observe(halted || !running);
      Log(Polled(e.OK?, e.OK? && stop.halted, es, image), halted || (e.OK? && stop.halted), e);
    }

    /** halt: OK only once the target is confirmed halted. */
    method Halt(es: seq<SwBp>) returns (e: Err, stop: StopDetect)
      requires Valid() && Tracks(es, mem, image)
      modifies this`mem, this`image, this`pc, this`trace, this`answer, this`halted, this`resumes
      ensures Valid() && Tracks(es, mem, image)
      ensures resumes == old(resumes) && trace == old(trace) + [HaltConfirmed(e.OK?, stop.halted, es, image)]
      ensures halted == (old(halted) || e.OK?)
      ensures e.OK? ==> stop.pc == pc
      ensures old(halted) ==> mem == old(mem) && image == old(image) && pc == old(pc)
      ensures !old(halted) ==> ProgramRan(es, old(mem), old(image), mem, image)
      ensures answer == e
    {
      hide Disciplined, HaltKnown, Resumes, ImageAfter;
      Elapse(es);
      e := *;
      stop := Observe(true);
      var reported := *;
      stop := stop.(halted := reported);
      Log(HaltConfirmed(e.OK?, stop.halted, es, image), halted || e.OK?, e);
    }

    /** resume: whatever the answer, the core may be executing afterwards. */
    method Resume(action: RunAction, runTo: nat, ghost purpose: Purpose, ghost config: RunConfig, es: seq<SwBp>)
      returns (e: Err)
      requires Valid() && halted
      requires purpose == Run(action, runTo) || (purpose.StepOver? && action == SingleStep && runTo == 0)
      requires ProperRelease(purpose, config, At(es))
      modifies this`trace, this`answer, this`halted, this`resumes
      ensures Valid() && !halted
      ensures trace == old(trace) + [Resumed(purpose, config, old(At(es)), e.OK?)]
      ensures resumes == old(resumes) + [Resumed(purpose, config, old(At(es)), e.OK?)]
      ensures answer == e
    {
      hide Disciplined, HaltKnown, Resumes, ImageAfter;
      e := *;
      Log(Resumed(purpose, config, At(es), e.OK?), false, e);
    }

    /** read_mem: OK means every requested byte was read. */
    method ReadMem(addr: nat, n: nat, es: seq<SwBp>) returns (e: Err, data: seq<byte>)
      requires Valid() && Tracks(es, mem, image)
      modifies this`mem, this`image, this`pc, this`trace, this`answer, this`halted, this`resumes
      ensures Valid() && Tracks(es, mem, image)
      ensures resumes == old(resumes) && trace == old(trace) + [MemoryRead(e.OK?, es, image)] && halted == old(halted)
      ensures e.OK? ==> data == Read(mem, addr, n)
      ensures halted ==> mem == old(mem) && image == old(image) && pc == old(pc)
      ensures !halted ==> ProgramRan(es, old(mem), old(image), mem, image)
      ensures answer == e
    {
      hide Disciplined, HaltKnown, Resumes, ImageAfter;
      Elapse(es);
      e := *;
      data := [];
      var i := 0;
      while i < n
        invariant i <= n && |data| == i
        invariant forall j :: 0 <= j < i ==> data[j] == mem.At(addr + j)
      {
        data := data + [mem.At(addr + i)];
        i := i + 1;
      }
      Log(MemoryRead(e.OK?, es, image), halted, e);
    }

    /** write_mem of a breakpoint patch or of the instruction it replaced: the image is what it was. */
    method WriteCode(addr: nat, data: seq<byte>, restore: bool) returns (e: Err)
      requires Valid() && halted
      modifies this`mem, this`trace, this`answer, this`halted, this`resumes
      ensures Valid()
      ensures resumes == old(resumes) && trace == old(trace) + [if restore then RestoreWrite(addr, e.OK?) else PatchWrite(addr, e.OK?)]
      ensures e.OK? ==> Same(mem, Write(old(mem), addr, data))
      ensures Torn(old(mem), mem, addr, data)
      ensures halted
      ensures answer == e
    {
      hide Disciplined, HaltKnown, Resumes, ImageAfter;
      e := *;
      Store(addr, data, e.OK?);
      Log(if restore then RestoreWrite(addr, e.OK?) else PatchWrite(addr, e.OK?), halted, e);
    }

    /** Stores all of `data`, or an arbitrary part of it. */
    method Store(addr: nat, data: seq<byte>, complete: bool)
      modifies this`mem
      ensures complete ==> Same(mem, Write(old(mem), addr, data))
      ensures Torn(old(mem), mem, addr, data)
    {
      var landed: Mem := *;
      var m := mem;
      mem := Mem((a: int) => if addr <= a < addr + |data| && (complete || landed.At(a) == 0) then data[a - addr] else m.At(a));
    }

    /** write_mem on behalf of the peer, who asked for `data`; the session sends `stored`. The
        image receives the peer's bytes. A failed write reaches the image only where no entry
        hides it. */
    method WriteMem(addr: nat, stored: seq<byte>, ghost data: seq<byte>, es: seq<SwBp>) returns (e: Err)
      requires Valid() && Tracks(es, mem, image) && |stored| == |data|
      requires forall i :: 0 <= i < |data| && !Covered(es, addr + i) ==> stored[i] == data[i]
      modifies this`mem, this`image, this`pc, this`trace, this`answer, this`halted, this`resumes
      ensures Valid() && resumes == old(resumes) && halted == old(halted) && |trace| == |old(trace)| + 1
      ensures var c := trace[|old(trace)|];
              && c.PeerWrite? && c.address == addr && c.data == data && c.ok == e.OK? && c.table == es && c.image == image
              && trace == old(trace) + [c]
      ensures PeerWrote(addr, stored, data, es, e.OK?, old(mem), old(image), mem, image, halted)
      ensures halted ==> pc == old(pc)
      ensures answer == e
    {
      hide Disciplined, HaltKnown, Resumes, ImageAfter;
      Elapse(es);
      e := *;
      ghost var m, i := mem, image;
      Store(addr, stored, e.OK?);
      ghost var m' := mem;
      image := if e.OK? then Write(image, addr, data)
               else Mem((a: int) => if Covered(es, a) then i.At(a) else m'.At(a));
      TornReaches(addr, stored, data, es, m, i, m', image, e.OK?);
      Log(PeerWrite(addr, data, e.OK?, es, i, image), halted, e);
      assert PeerStored(addr, stored, data, es, e.OK?, m, i, mem, image);
    }

    /** read_regs into buf[base..base + capacity): on OK, `size` bytes of register entries whose
        program counter is the physical one. The session does not trust `size` to be in range. */
    method ReadRegs(buf: array<byte>, base: nat, capacity: nat) returns (e: Err, size: nat)
      requires Valid() && base + capacity <= buf.Length
      modifies this`trace, this`answer, this`halted, this`resumes, buf
      ensures Valid() && resumes == old(resumes) && halted == old(halted)
      ensures trace == old(trace) +
                [RegistersRead(e.OK? && size <= capacity, if size <= capacity then buf[base..base + size] else [])]
      ensures forall i :: 0 <= i < buf.Length && !(base <= i < base + capacity) ==> buf[i] == old(buf[i])
      ensures e.OK? && size <= capacity ==> PcTruthful(buf[base..base + size], pc)
      ensures answer == e
    {
      hide Disciplined, HaltKnown, Resumes, ImageAfter;
      e := *;
      size := *;
      var blob: seq<byte> := *;
      if |blob| > capacity || !PcTruthful(blob, pc) {
        blob := [];
      }
      if size <= capacity {
        size := |blob|;
      }
      for i := 0 to |blob|
        modifies buf
        invariant forall j :: 0 <= j < i ==> buf[base + j] == blob[j]
        invariant forall j :: 0 <= j < buf.Length && !(base <= j < base + capacity) ==> buf[j] == old(buf[j])
      {
        buf[base + i] := blob[i];
      }
      assert buf[base..base + |blob|] == blob;
      Log(RegistersRead(e.OK? && size <= capacity, if size <= capacity then buf[base..base + size] else []), halted, e);
    }

    /** write_regs: lists naming the program counter twice, or at another width, are rejected; a
        failed write may have reached the program counter. */
    method WriteRegs(b: seq<byte>) returns (e: Err)
      requires Valid()
      modifies this`trace, this`answer, this`halted, this`resumes, this`pc
      ensures Valid() && resumes == old(resumes) && trace == old(trace) + [RegistersWritten(b, e.OK?)] && halted == old(halted)
      ensures e.OK? ==> |PcWrites(Parse(b))| <= 1
      ensures e.OK? ==> pc == if PcWrites(Parse(b)) == [] then old(pc) else PcWrites(Parse(b))[0]
      ensures pc == old(pc) || pc in PcWrites(Parse(b))
      ensures answer == e
    {
      hide Disciplined, HaltKnown, Resumes, ImageAfter;
      e := *;
      var ws := PcWrites(Parse(b));
      if |ws| > 1 {
        e := REJECTED;
      } else if ws != [] {
        var landed := *;
        if e.OK? || landed {
          pc := ws[0];
        }
      }
      Log(RegistersWritten(b, e.OK?), halted, e);
    }

    /** apply_breakpoints: replaces the comparator set, completely or not at all. */
    method ApplyBreakpoints(entries: seq<BpEntry>) returns (e: Err)
      requires Valid()
      modifies this`trace, this`answer, this`halted, this`resumes, this`hw
      ensures Valid() && resumes == old(resumes) && trace == old(trace) + [Transfer(e.OK?)] && halted == old(halted)
      ensures hw == if e.OK? then entries else old(hw)
      ensures answer == e
    {
      hide Disciplined, HaltKnown, Resumes, ImageAfter;
      e := *;
      if e.OK? { hw := entries; }
      Log(Transfer(e.OK?), halted, e);
    }

    method ApplyWatchpoints(entries: seq<WpEntry>) returns (e: Err)
      requires Valid()
      modifies this`trace, this`answer, this`halted, this`resumes, this`wps
      ensures Valid() && resumes == old(resumes) && trace == old(trace) + [Transfer(e.OK?)] && halted == old(halted)
      ensures wps == if e.OK? then entries else old(wps)
      ensures answer == e
    {
      hide Disciplined, HaltKnown, Resumes, ImageAfter;
      e := *;
      if e.OK? { wps := entries; }
      Log(Transfer(e.OK?), halted, e);
    }

    method SetVectorCatch(mask: set<nat>) returns (e: Err)
      requires Valid()
      modifies this`trace, this`answer, this`halted, this`resumes, this`catchMask
      ensures Valid() && resumes == old(resumes) && trace == old(trace) + [Transfer(e.OK?)] && halted == old(halted)
      ensures catchMask == if e.OK? then mask else old(catchMask)
      ensures answer == e
    {
      hide Disciplined, HaltKnown, Resumes, ImageAfter;
      e := *;
      if e.OK? { catchMask := mask; }
      Log(Transfer(e.OK?), halted, e);
    }
  }
}
