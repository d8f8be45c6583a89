/** Reassembly of WebSocket data events into messages (section 5.4 of RFC 6455). */
module WebSocket {

  type octet = bv8

  const MAX_FRAME_SIZE: nat := 8192

  datatype WsOpcode = BINARY | CONT | Other(code: nat)

  /** One data callback: a chunk of a frame. `payloadLen` is the size of the whole frame, `payloadOffset`
      where the chunk lies in it. The sizes come from the driver and may be negative. */
  datatype Event = Event(opcode: WsOpcode, fin: bool, payloadLen: int, payloadOffset: int, data: seq<octet>)

  /** What is staged between two events: the bytes so far, whether a message is open, whether it has
      already been given up, and the receive epoch it belongs to. */
  datatype Staging = Staging(active: bool, discarded: bool, bytes: seq<octet>, epoch: nat)

  function Idle(epoch: nat): Staging {
    Staging(false, false, [], epoch)
  }

  predicate IsData(e: Event) {
    e.opcode.BINARY? || e.opcode.CONT?
  }

  predicate Starts(e: Event) {
    e.payloadOffset == 0 && e.opcode.BINARY?
  }

  /** A chunk that lies inside its frame. */
  predicate Framed(e: Event) {
    0 <= e.payloadOffset <= e.payloadLen && |e.data| <= e.payloadLen - e.payloadOffset
  }

  function Stage(s: Staging, data: seq<octet>): Staging {
    if s.discarded || data == [] then s
    else if |s.bytes| + |data| > MAX_FRAME_SIZE then s.(discarded := true)
    else s.(bytes := s.bytes + data)
  }

  predicate Ends(e: Event) {
    e.fin && e.payloadOffset + |e.data| >= e.payloadLen
  }

  /** The staging after one event of an open session, and the packet it passes on, if any. */
  function Handle(s0: Staging, epoch: nat, e: Event): (Staging, seq<seq<octet>>) {
    var s1 := if s0.epoch != epoch then Idle(epoch) else s0;
    if e.payloadLen < 0 || e.payloadOffset < 0 || !IsData(e) then (s1, [])
    else
      var s2 := if Starts(e) then Idle(epoch).(active := true) else s1;
      if !s2.active then (s2, [])
      else if !Framed(e) then (Idle(epoch), [])
      else
        var s3 := Stage(s2, e.data);
        if !Ends(e) then (s3, [])
        else (Idle(epoch), if s3.discarded then [] else [s3.bytes])
  }

  function After(s: Staging, epoch: nat, es: seq<Event>): Staging {
    if es == [] then s else Handle(After(s, epoch, es[..|es| - 1]), epoch, es[|es| - 1]).0
  }

  function Passed(s: Staging, epoch: nat, es: seq<Event>): seq<seq<octet>> {
    if es == [] then []
    else
      var n := |es| - 1;
      Passed(s, epoch, es[..n]) + Handle(After(s, epoch, es[..n]), epoch, es[n]).1
  }

  lemma {:induction false} AfterAppend(s: Staging, epoch: nat, a: seq<Event>, b: seq<Event>)
    ensures After(s, epoch, a + b) == After(After(s, epoch, a), epoch, b)
    ensures Passed(s, epoch, a + b) == Passed(s, epoch, a) + Passed(After(s, epoch, a), epoch, b)
    decreases |b|
  {
    if b == [] {
      assert a + b == a;
    } else {
      var n := |b| - 1;
      assert (a + b)[..|a + b| - 1] == a + b[..n];
      AfterAppend(s, epoch, a, b[..n]);
    }
  }

  lemma AfterOne(s: Staging, epoch: nat, es: seq<Event>, e: Event)
    ensures After(s, epoch, es + [e]) == Handle(After(s, epoch, es), epoch, e).0
    ensures Passed(s, epoch, es + [e]) == Passed(s, epoch, es) + Handle(After(s, epoch, es), epoch, e).1
  {
    assert (es + [e])[..|es + [e]| - 1] == es;
  }

  lemma AfterNothing(s: Staging, epoch: nat)
    ensures After(s, epoch, []) == s && Passed(s, epoch, []) == []
  {
  }

  /** Nothing staged under another epoch survives: not a byte of it can reach a packet of this one. */
  lemma EpochForgets(s: Staging, epoch: nat, e: Event)
    requires s.epoch != epoch
    ensures Handle(s, epoch, e) == Handle(Idle(epoch), epoch, e)
  {
  }

  // ---- how a peer sends messages --------------------------------------------------------------

  /** A frame on the wire, and how the library cuts it into events. */
  datatype Fragment = Fragment(chunks: seq<seq<octet>>)
  {
    function Payload(): seq<octet> {
      Concat(chunks)
    }

    /** The library reports every frame, in one event or more; any of its chunks may be empty. */
    predicate Proper() {
      chunks != []
    }
  }

  function Concat(chunks: seq<seq<octet>>): seq<octet> {
    if chunks == [] then [] else Concat(chunks[..|chunks| - 1]) + chunks[|chunks| - 1]
  }

  /** The first `n` events of a frame. */
  function FrameEvents(opcode: WsOpcode, fin: bool, f: Fragment, n: nat): seq<Event>
    requires n <= |f.chunks|
  {
    if n == 0 then []
    else FrameEvents(opcode, fin, f, n - 1)
         + [Event(opcode, fin, |f.Payload()|, |Concat(f.chunks[..n - 1])|, f.chunks[n - 1])]
  }

  function FragmentOpcode(k: nat): WsOpcode {
    if k == 0 then BINARY else CONT
  }

  /** The events of the first `k` fragments of a message. */
  function MessageEvents(m: seq<Fragment>, k: nat): seq<Event>
    requires k <= |m|
  {
    if k == 0 then []
    else MessageEvents(m, k - 1) + FrameEvents(FragmentOpcode(k - 1), k == |m|, m[k - 1], |m[k - 1].chunks|)
  }

  /** The bytes of the first `k` fragments. */
  function Bytes(m: seq<Fragment>, k: nat): seq<octet>
    requires k <= |m|
  {
    if k == 0 then [] else Bytes(m, k - 1) + m[k - 1].Payload()
  }

  predicate ProperMessage(m: seq<Fragment>) {
    m != [] && forall i :: 0 <= i < |m| ==> m[i].Proper()
  }

  /** The one kind of message that is passed on more than once: a single frame without payload that the
      library reports in several events. */
  predicate Repeated(m: seq<Fragment>) {
    |m| == 1 && m[0].Payload() == [] && |m[0].chunks| > 1
  }

  function StreamEvents(ms: seq<seq<Fragment>>): seq<Event> {
    if ms == [] then []
    else StreamEvents(ms[..|ms| - 1]) + MessageEvents(ms[|ms| - 1], |ms[|ms| - 1]|)
  }

  /** A message, if it fits one frame. */
  function Fit(m: seq<Fragment>): seq<seq<octet>> {
    if |Bytes(m, |m|)| <= 8192 then [Bytes(m, |m|)] else []
  }

  /** The messages that fit one frame, whole and in order. */
  function Fitting(ms: seq<seq<Fragment>>): seq<seq<octet>> {
    if ms == [] then [] else Fitting(ms[..|ms| - 1]) + Fit(ms[|ms| - 1])
  }

  /** What is passed on for one message. */
  function Delivered(m: seq<Fragment>): seq<seq<octet>> {
    if Repeated(m) then seq<seq<octet>>(|m[0].chunks|, i => []) else Fit(m)
  }

  /** What is passed on for a stream of messages. */
  function AllDelivered(ms: seq<seq<Fragment>>): seq<seq<octet>> {
    if ms == [] then [] else AllDelivered(ms[..|ms| - 1]) + Delivered(ms[|ms| - 1])
  }

  /** The events of binary and continuation frames: all but those whose opcode is another. */
  function DataOf(es: seq<Event>): seq<Event> {
    if es == [] then []
    else DataOf(es[..|es| - 1]) + (if es[|es| - 1].opcode.Other? then [] else [es[|es| - 1]])
  }

  // ---- the proof, one frame and one message at a time --------------------------------------------

  /** What is staged once `bytes` of a message have been seen: `bytes` if they fit, and otherwise only
      that they do not. */
  ghost predicate Holds(s: Staging, bytes: seq<octet>, epoch: nat) {
    && s.active && s.epoch == epoch && |s.bytes| <= MAX_FRAME_SIZE
    && (s.discarded <==> |bytes| > MAX_FRAME_SIZE)
    && (!s.discarded ==> s.bytes == bytes)
  }

  lemma StageHolds(s: Staging, bytes: seq<octet>, data: seq<octet>, epoch: nat)
    requires Holds(s, bytes, epoch)
    ensures Holds(Stage(s, data), bytes + data, epoch)
  {
    if data == [] {
      assert bytes + data == bytes;
    }
  }

  lemma {:induction false} ConcatPrefix(chunks: seq<seq<octet>>, n: nat)
    requires n <= |chunks|
    ensures |Concat(chunks[..n])| <= |Concat(chunks)|
    ensures n < |chunks| ==> Concat(chunks[..n + 1]) == Concat(chunks[..n]) + chunks[n]
    decreases |chunks| - n
  {
    if n < |chunks| {
      assert chunks[..n + 1][..n] == chunks[..n];
      ConcatPrefix(chunks, n + 1);
    } else {
      assert chunks[..n] == chunks;
    }
  }

  lemma ConcatNothing(chunks: seq<seq<octet>>)
    ensures Concat(chunks[..0]) == []
  {
  }

  /** Where the `n`th chunk of a frame lies. */
  lemma Geometry(f: Fragment, n: nat)
    requires f.Proper() && 0 < n <= |f.chunks|
    ensures var offset, size := |Concat(f.chunks[..n - 1])|, |f.chunks[n - 1]|;
            offset + size == |Concat(f.chunks[..n])| <= |f.Payload()|
    ensures Concat(f.chunks[..n]) == Concat(f.chunks[..n - 1]) + f.chunks[n - 1]
    ensures n == |f.chunks| ==> Concat(f.chunks[..n]) == f.Payload()
  {
    assert f.chunks[..|f.chunks|] == f.chunks;
    ConcatPrefix(f.chunks, n - 1);
    ConcatPrefix(f.chunks, n);
  }

  /** The chunk that completes a frame: with it the whole payload has been reported, and not before. */
  lemma Completion(f: Fragment) returns (c: nat)
    requires f.Proper()
    ensures 0 < c <= |f.chunks| && Concat(f.chunks[..c]) == f.Payload()
    ensures c > 1 ==> |Concat(f.chunks[..c - 1])| < |f.Payload()|
    ensures forall n :: c <= n <= |f.chunks| ==> |Concat(f.chunks[..n])| == |f.Payload()|
  {
    c := |f.chunks|;
    Geometry(f, c);
    while c > 1 && |Concat(f.chunks[..c - 1])| == |f.Payload()|
      invariant 0 < c <= |f.chunks| && Concat(f.chunks[..c]) == f.Payload()
      invariant forall n :: c <= n <= |f.chunks| ==> |Concat(f.chunks[..n])| == |f.Payload()|
    {
      Geometry(f, c);
      assert f.chunks[c - 1] == [];
      c := c - 1;
    }
    if c > 1 {
      Geometry(f, c);
    }
  }

  /** One event of a message whose bytes so far are `before`. */
  lemma ChunkHandled(t: Staging, epoch: nat, e: Event, before: seq<octet>)
    requires t.epoch == epoch && !e.opcode.Other? && Framed(e)
    requires if Starts(e) then before == [] else Holds(t, before, epoch)
    ensures var (u, packets) := Handle(t, epoch, e);
            var all := before + e.data;
            if !Ends(e) then packets == [] && Holds(u, all, epoch)
            else u == Idle(epoch) && packets == if |all| <= MAX_FRAME_SIZE then [all] else []
  {
    var s2 := if Starts(e) then Idle(epoch).(active := true) else t;
    StageHolds(s2, before, e.data, epoch);
  }

  /** The `n`th event of a frame. */
  function Nth(opcode: WsOpcode, fin: bool, f: Fragment, n: nat): Event
    requires 0 < n <= |f.chunks|
  {
    Event(opcode, fin, |f.Payload()|, |Concat(f.chunks[..n - 1])|, f.chunks[n - 1])
  }

  lemma NthLast(s: Staging, opcode: WsOpcode, fin: bool, f: Fragment, n: nat, epoch: nat)
    requires 0 < n <= |f.chunks|
    ensures var es, t := FrameEvents(opcode, fin, f, n), After(s, epoch, FrameEvents(opcode, fin, f, n - 1));
            && After(s, epoch, es) == Handle(t, epoch, Nth(opcode, fin, f, n)).0
            && Passed(s, epoch, es) ==
               Passed(s, epoch, FrameEvents(opcode, fin, f, n - 1)) + Handle(t, epoch, Nth(opcode, fin, f, n)).1
  {
    hide After, Passed, Handle;
    AfterOne(s, epoch, FrameEvents(opcode, fin, f, n - 1), Nth(opcode, fin, f, n));
  }

  /** The first `n` chunks of a frame, as long as they do not complete a message, add their bytes to what `s`
      holds of it. */
  lemma {:induction false} FrameHolds(s: Staging, before: seq<octet>, k: nat, fin: bool, f: Fragment, n: nat, epoch: nat)
    requires f.Proper() && n <= |f.chunks| && s.epoch == epoch
    requires if k == 0 then before == [] else Holds(s, before, epoch)
    requires n == 0 || !fin || |Concat(f.chunks[..n])| < |f.Payload()|
    ensures var es := FrameEvents(FragmentOpcode(k), fin, f, n);
            && Passed(s, epoch, es) == [] && After(s, epoch, es).epoch == epoch
            && (k > 0 || n > 0 ==> Holds(After(s, epoch, es), before + Concat(f.chunks[..n]), epoch))
    decreases n
  {
    hide Handle, Holds, After, Passed, Concat;
    if n == 0 {
      AfterNothing(s, epoch);
      assert Concat(f.chunks[..0]) == [] by { ConcatNothing(f.chunks); }
      assert before + Concat(f.chunks[..0]) == before;
    } else {
      var opcode := FragmentOpcode(k);
      Geometry(f, n);
      FrameHolds(s, before, k, fin, f, n - 1, epoch);
      NthLast(s, opcode, fin, f, n, epoch);
      NthBefore(before, f, n);
      var t := After(s, epoch, FrameEvents(opcode, fin, f, n - 1));
      ChunkHandled(t, epoch, Nth(opcode, fin, f, n), before + Concat(f.chunks[..n - 1]));
      HoldsEpoch(After(s, epoch, FrameEvents(opcode, fin, f, n)), before + Concat(f.chunks[..n]), epoch);
    }
  }

  lemma HoldsEpoch(s: Staging, bytes: seq<octet>, epoch: nat)
    requires Holds(s, bytes, epoch)
    ensures s.epoch == epoch
  {
  }

  lemma NthBefore(before: seq<octet>, f: Fragment, n: nat)
    requires f.Proper() && 0 < n <= |f.chunks|
    ensures before + Concat(f.chunks[..n - 1]) + f.chunks[n - 1] == before + Concat(f.chunks[..n])
    ensures |Concat(f.chunks[..n - 1])| == 0 && before == [] ==> before + Concat(f.chunks[..n - 1]) == []
    ensures n == 1 ==> Concat(f.chunks[..n - 1]) == []
  {
    Geometry(f, n);
    ConcatNothing(f.chunks);
  }

  /** The last frame of a message, up to the chunk that completes it: the packet is passed on if the whole
      message fits. */
  lemma LastChunk(s: Staging, before: seq<octet>, k: nat, f: Fragment, c: nat, epoch: nat)
    requires f.Proper() && s.epoch == epoch && 0 < c <= |f.chunks| && Concat(f.chunks[..c]) == f.Payload()
    requires c > 1 ==> |Concat(f.chunks[..c - 1])| < |f.Payload()|
    requires if k == 0 then before == [] else Holds(s, before, epoch)
    ensures var es := FrameEvents(FragmentOpcode(k), true, f, c);
            var all := before + f.Payload();
            && After(s, epoch, es) == Idle(epoch)
            && Passed(s, epoch, es) == if |all| <= MAX_FRAME_SIZE then [all] else []
  {
    hide Handle, Holds;
    var opcode := FragmentOpcode(k);
    FrameHolds(s, before, k, true, f, c - 1, epoch);
    Geometry(f, c);
    NthLast(s, opcode, true, f, c, epoch);
    NthBefore(before, f, c);
    var t := After(s, epoch, FrameEvents(opcode, true, f, c - 1));
    ChunkHandled(t, epoch, Nth(opcode, true, f, c), before + Concat(f.chunks[..c - 1]));
  }

  /** Events of a frame after the one that completed it are ignored: they start nothing, unless the frame has
      no payload at all and is reported as the start of a message. */
  lemma {:induction false} RestIgnored(s: Staging, k: nat, f: Fragment, c: nat, n: nat, epoch: nat)
    requires f.Proper() && 0 < c <= n <= |f.chunks| && s.epoch == epoch
    requires k > 0 || f.Payload() != []
    requires forall i :: c <= i <= |f.chunks| ==> |Concat(f.chunks[..i])| == |f.Payload()|
    requires After(s, epoch, FrameEvents(FragmentOpcode(k), true, f, c)) == Idle(epoch)
    ensures var opcode := FragmentOpcode(k);
            && After(s, epoch, FrameEvents(opcode, true, f, n)) == Idle(epoch)
            && Passed(s, epoch, FrameEvents(opcode, true, f, n)) == Passed(s, epoch, FrameEvents(opcode, true, f, c))
    decreases n
  {
    hide After, Passed, Concat;
    if n > c {
      RestIgnored(s, k, f, c, n - 1, epoch);
      NthLast(s, FragmentOpcode(k), true, f, n, epoch);
    }
  }

  /** A message that is a single frame without payload is passed on, empty, as often as the frame is reported. */
  lemma {:induction false} EmptyRepeats(s: Staging, f: Fragment, n: nat, epoch: nat)
    requires f.Proper() && n <= |f.chunks| && s.epoch == epoch && f.Payload() == []
    ensures Passed(s, epoch, FrameEvents(BINARY, true, f, n)) == seq<seq<octet>>(n, i => [])
    ensures After(s, epoch, FrameEvents(BINARY, true, f, n)) == if n == 0 then s else Idle(epoch)
    decreases n
  {
    hide After, Passed, Concat, Handle;
    if n == 0 {
      AfterNothing(s, epoch);
    } else {
      EmptyRepeats(s, f, n - 1, epoch);
      Geometry(f, n);
      NthLast(s, BINARY, true, f, n, epoch);
      NthBefore([], f, n);
      var t := After(s, epoch, FrameEvents(BINARY, true, f, n - 1));
      ChunkHandled(t, epoch, Nth(BINARY, true, f, n), []);
      assert [] + f.chunks[n - 1] == [];
    }
  }

  /** The last frame of a message. */
  lemma LastFrame(s: Staging, before: seq<octet>, k: nat, f: Fragment, epoch: nat)
    requires f.Proper() && s.epoch == epoch
    requires if k == 0 then before == [] else Holds(s, before, epoch)
    ensures var es := FrameEvents(FragmentOpcode(k), true, f, |f.chunks|);
            var all := before + f.Payload();
            && After(s, epoch, es) == Idle(epoch)
            && Passed(s, epoch, es) ==
               if k == 0 && f.Payload() == [] then seq<seq<octet>>(|f.chunks|, i => [])
               else if |all| <= MAX_FRAME_SIZE then [all] else []
  {
    hide Handle, Holds, After, Passed, Concat;
    if k == 0 && f.Payload() == [] {
      EmptyRepeats(s, f, |f.chunks|, epoch);
    } else {
      var c := Completion(f);
      LastChunk(s, before, k, f, c, epoch);
      RestIgnored(s, k, f, c, |f.chunks|, epoch);
    }
  }

  /** The fragments of a message but the last one leave exactly their bytes staged. */
  lemma {:induction false} FragmentsHold(s: Staging, m: seq<Fragment>, k: nat, epoch: nat)
    requires ProperMessage(m) && k < |m| && s.epoch == epoch
    ensures var es := MessageEvents(m, k);
            && Passed(s, epoch, es) == [] && After(s, epoch, es).epoch == epoch
            && (k > 0 ==> Holds(After(s, epoch, es), Bytes(m, k), epoch))
    decreases k
  {
    hide Handle, Holds, After, Passed, FrameEvents;
    AfterNothing(s, epoch);
    if k > 0 {
      FragmentsHold(s, m, k - 1, epoch);
      var t := After(s, epoch, MessageEvents(m, k - 1));
      var f := m[k - 1];
      FrameHolds(t, Bytes(m, k - 1), k - 1, false, f, |f.chunks|, epoch);
      Geometry(f, |f.chunks|);
      AfterAppend(s, epoch, MessageEvents(m, k - 1), FrameEvents(FragmentOpcode(k - 1), false, f, |f.chunks|));
    }
  }

  lemma LastFragment(m: seq<Fragment>)
    requires m != []
    ensures var k := |m| - 1;
            && MessageEvents(m, |m|) == MessageEvents(m, k) + FrameEvents(FragmentOpcode(k), true, m[k], |m[k].chunks|)
            && Bytes(m, |m|) == Bytes(m, k) + m[k].Payload()
    ensures Bytes(m, 0) == []
  {
  }

  /** A whole message passes on its bytes, if they fit, and leaves nothing behind. */
  lemma MessagePassed(s: Staging, m: seq<Fragment>, epoch: nat)
    requires ProperMessage(m) && s.epoch == epoch
    ensures Passed(s, epoch, MessageEvents(m, |m|)) == Delivered(m)
    ensures After(s, epoch, MessageEvents(m, |m|)) == Idle(epoch)
  {
    hide Handle, Holds, After, Passed, FrameEvents, MessageEvents, Bytes, FragmentOpcode;
    var k := |m| - 1;
    LastFragment(m);
    FragmentsHold(s, m, k, epoch);
    var t := After(s, epoch, MessageEvents(m, k));
    LastFrame(t, Bytes(m, k), k, m[k], epoch);
    AfterAppend(s, epoch, MessageEvents(m, k), FrameEvents(FragmentOpcode(k), true, m[k], |m[k].chunks|));
    if k == 0 && m[0].Payload() == [] {
      assert seq<seq<octet>>(1, i => []) == [[]];
    }
  }

  lemma HandleEpoch(t: Staging, epoch: nat, e: Event)
    ensures Handle(t, epoch, e).0.epoch == epoch
  {
  }

  /** An event of any frame but a binary or a continuation one, a ping with a payload say, adds nothing to what
      is staged and passes nothing on. */
  lemma OtherFrames(s: Staging, epoch: nat, e: Event)
    requires e.opcode.Other?
    ensures Handle(s, epoch, e) == (if s.epoch != epoch then Idle(epoch) else s, [])
  {
  }

  /** A chunk that does not lie in its frame, or a continuation of nothing, is never passed on; the first gives up
      what is staged. */
  lemma BrokenEvents(s: Staging, epoch: nat, e: Event)
    requires s.epoch == epoch
    ensures e.payloadLen < 0 || e.payloadOffset < 0 ==> Handle(s, epoch, e) == (s, [])
    ensures !s.active && !(e.opcode.BINARY? && e.payloadOffset == 0) ==> Handle(s, epoch, e) == (s, [])
    ensures 0 <= e.payloadOffset && 0 <= e.payloadLen < e.payloadOffset + |e.data| && !e.opcode.Other? ==>
              s.active || (e.opcode.BINARY? && e.payloadOffset == 0) ==> Handle(s, epoch, e) == (Idle(epoch), [])
  {
  }

  /** Whatever the events, no packet is longer than a frame. */
  lemma PacketsBounded(s: Staging, epoch: nat, e: Event)
    requires |s.bytes| <= 8192
    ensures |Handle(s, epoch, e).0.bytes| <= 8192
    ensures forall i :: 0 <= i < |Handle(s, epoch, e).1| ==> |Handle(s, epoch, e).1[i]| <= 8192
  {
  }

  /** Control frames change nothing that is staged. */
  lemma {:induction false} ControlIgnored(s: Staging, epoch: nat, es: seq<Event>)
    requires s.epoch == epoch
    ensures After(s, epoch, es) == After(s, epoch, DataOf(es)) && Passed(s, epoch, es) == Passed(s, epoch, DataOf(es))
    ensures After(s, epoch, es).epoch == epoch
    decreases |es|
  {
    hide Handle, After, Passed;
    if es != [] {
      var n := |es| - 1;
      ControlIgnored(s, epoch, es[..n]);
      HandleEpoch(After(s, epoch, es[..n]), epoch, es[n]);
      if es[n].opcode.Other? {
        OtherFrames(After(s, epoch, es[..n]), epoch, es[n]);
      }
      assert es == es[..n] + [es[n]];
      AfterOne(s, epoch, es[..n], es[n]);
      AfterOne(s, epoch, DataOf(es[..n]), es[n]);
      assert DataOf(es) == if es[n].opcode.Other? then DataOf(es[..n]) else DataOf(es[..n]) + [es[n]];
    } else {
      AfterNothing(s, epoch);
    }
  }

  /** Reassembly: however messages are cut into frames and frames into chunks, whatever control frames
      come in between, and whatever was staged before, the packets passed on are exactly the messages
      that fit, whole and in order; a message of one frame without payload comes once for each time the
      library reports the frame. */
  lemma {:induction false} Reassembled(s: Staging, epoch: nat, ms: seq<seq<Fragment>>, es: seq<Event>)
    requires forall i :: 0 <= i < |ms| ==> ProperMessage(ms[i])
    requires s.epoch == epoch && DataOf(es) == StreamEvents(ms)
    ensures Passed(s, epoch, es) == AllDelivered(ms)
    ensures Passed(s, epoch, es) == Fitting(ms) <==> forall i :: 0 <= i < |ms| ==> !Repeated(ms[i])
  {
    ControlIgnored(s, epoch, es);
    StreamPassed(s, epoch, ms);
    OnceEach(ms);
  }

  /** Each message that fits is passed on once, exactly if none is a repeated empty frame. */
  lemma {:induction false} OnceEach(ms: seq<seq<Fragment>>)
    requires forall i :: 0 <= i < |ms| ==> ProperMessage(ms[i])
    ensures |AllDelivered(ms)| >= |Fitting(ms)|
    ensures |AllDelivered(ms)| == |Fitting(ms)| <==> forall i :: 0 <= i < |ms| ==> !Repeated(ms[i])
    ensures |AllDelivered(ms)| == |Fitting(ms)| ==> AllDelivered(ms) == Fitting(ms)
    decreases |ms|
  {
    hide Repeated, Delivered, Fit, ProperMessage;
    if ms != [] {
      var n := |ms| - 1;
      OnceEach(ms[..n]);
      OnceLast(ms[n]);
      assert forall i :: 0 <= i < n ==> ms[..n][i] == ms[i];
    }
  }

  lemma OnceLast(m: seq<Fragment>)
    requires ProperMessage(m)
    ensures |Delivered(m)| >= |Fit(m)| && (|Delivered(m)| == |Fit(m)| <==> !Repeated(m))
    ensures !Repeated(m) ==> Delivered(m) == Fit(m)
  {
    if Repeated(m) {
      LastFragment(m);
      assert Bytes(m, 1) == [];
    }
  }

  lemma {:induction false} StreamPassed(s: Staging, epoch: nat, ms: seq<seq<Fragment>>)
    requires forall i :: 0 <= i < |ms| ==> ProperMessage(ms[i])
    requires s.epoch == epoch
    ensures Passed(s, epoch, StreamEvents(ms)) == AllDelivered(ms)
    ensures After(s, epoch, StreamEvents(ms)).epoch == epoch
    decreases |ms|
  {
    hide Delivered, Handle;
    if ms != [] {
      var n := |ms| - 1;
      StreamPassed(s, epoch, ms[..n]);
      var t := After(s, epoch, StreamEvents(ms[..n]));
      MessagePassed(t, ms[n], epoch);
      AfterAppend(s, epoch, StreamEvents(ms[..n]), MessageEvents(ms[n], |ms[n]|));
    }
  }

  // ---- the receiver ---------------------------------------------------------------------------------

  /** The staging buffer of the transport. */
  class Receiver {
    const stagingBuffer: array<octet>
    var stagingReceived: nat
    var stagingEpoch: nat
    var stagingActive: bool
    var stagingDiscarded: bool

    ghost predicate Valid()
      reads this
    {
      stagingBuffer.Length == MAX_FRAME_SIZE && stagingReceived <= MAX_FRAME_SIZE
    }

    function Model(): Staging
      requires stagingReceived <= stagingBuffer.Length
      reads this, stagingBuffer
    {
      Staging(stagingActive, stagingDiscarded, stagingBuffer[..stagingReceived], stagingEpoch)
    }

    constructor ()
      ensures Valid() && fresh(stagingBuffer) && Model() == Idle(0)
    {
      stagingBuffer := new octet[MAX_FRAME_SIZE](i => 0);
      stagingReceived, stagingEpoch, stagingActive, stagingDiscarded := 0, 0, false, false;
    }

    method ResetStaging()
      requires Valid()
      modifies this`stagingReceived, this`stagingActive, this`stagingDiscarded
      ensures Valid() && Model() == Idle(stagingEpoch)
    {
      stagingReceived, stagingActive, stagingDiscarded := 0, false, false;
    }

    /** Handles one data event; `packets` is what it passes on. What another epoch staged, or a session closed
        at the first sample, is forgotten; a session closed at the second stages nothing. */
    method HandleData(e: Event, currentEpoch: nat, openFirst: bool, open: bool) returns (packets: seq<seq<octet>>)
      requires Valid()
      modifies this, stagingBuffer
      ensures Valid() && stagingEpoch == currentEpoch
      ensures var start := if old(stagingEpoch) != currentEpoch || !openFirst then Idle(currentEpoch) else old(Model());
              (Model(), packets) == if open then Handle(start, currentEpoch, e) else (start, [])
    {
      packets := [];
      if stagingEpoch != currentEpoch || !openFirst {
        ResetStaging();
        stagingEpoch := currentEpoch;
      }
      if !open || e.payloadLen < 0 || e.payloadOffset < 0 {
        return;
      }
      if !e.opcode.BINARY? && !e.opcode.CONT? {
        return;
      }
      var frameSize, frameOffset, chunkSize := e.payloadLen, e.payloadOffset, |e.data|;
      if frameOffset == 0 && e.opcode.BINARY? {
        ResetStaging();
        stagingActive := true;
      } else if !stagingActive {
        return;
      }
      if frameOffset > frameSize || chunkSize > frameSize - frameOffset {
        ResetStaging();
        return;
      }
      CopyChunk(e.data);
      var frameComplete := frameOffset + chunkSize >= frameSize;
      if !e.fin || !frameComplete {
        return;
      }
      if !stagingDiscarded {
        packets := [stagingBuffer[..stagingReceived]];
      }
      ResetStaging();
    }

    /** Adds one chunk to the staged message, or gives the message up. */
    method CopyChunk(data: seq<octet>)
      requires Valid()
      modifies this`stagingReceived, this`stagingDiscarded, stagingBuffer
      ensures Valid() && Model() == Stage(old(Model()), data)
    {
      if |data| != 0 && !stagingDiscarded {
        if |data| > MAX_FRAME_SIZE - stagingReceived {
          stagingDiscarded := true;
        } else {
          for i := 0 to |data|
            modifies stagingBuffer
            invariant stagingBuffer[..stagingReceived] == old(stagingBuffer[..stagingReceived])
            invariant stagingBuffer[stagingReceived..stagingReceived + i] == data[..i]
          {
            stagingBuffer[stagingReceived + i] := data[i];
          }
        }
      }
      if !stagingDiscarded {
        stagingReceived := stagingReceived + |data|;
      }
    }
  }
}
