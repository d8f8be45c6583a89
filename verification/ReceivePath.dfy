/** From the wire to the reader: the decoders of the two transports in front of the packet queue.

    A transport task samples the receive epoch, feeds its decoder what the driver has, and delivers what comes
    out under the epoch it sampled, while links, owners and readers go on changing the queue. The decoder keeps
    what it has assembled from one turn to the next. */
module ReceivePath {
  import opened PacketQueue
  import Slip
  import WebSocket

  // ---- the serial transport --------------------------------------------------------------------

  /** One turn of the serial task: the moment of the interleaving at which it sampled the epoch, the two
      answers of `is_open` after that, one for the reset and one for going on, and what the driver had. */
  datatype Drain = Drain(time: nat, openFirst: bool, open: bool, input: seq<octet>)

  /** The decoder between two turns; `since` is the turn in which it last started afresh. */
  datatype Decoder = Decoder(state: Slip.State, epoch: nat, since: nat)

  const FRESH: Slip.State := Slip.State(false, false, false, [])

  ghost predicate Scheduled(trace: seq<Q>, drains: seq<Drain>) {
    forall n :: 0 <= n < |drains| ==> drains[n].time < |trace|
  }

  /** The decoder once turn `n` has sampled the epoch. */
  ghost function Started(trace: seq<Q>, drains: seq<Drain>, n: nat): Decoder
    requires Scheduled(trace, drains) && n < |drains|
    decreases n, 1
  {
    var d := Drained(trace, drains, n);
    var epoch := trace[drains[n].time].epoch;
    if d.epoch != epoch || !drains[n].openFirst then Decoder(FRESH, epoch, n) else d
  }

  /** The decoder after `n` turns. */
  ghost function Drained(trace: seq<Q>, drains: seq<Drain>, n: nat): Decoder
    requires Scheduled(trace, drains) && n <= |drains|
    decreases n, 0
  {
    if n == 0 then Decoder(FRESH, 0, 0)
    else
      var d := Started(trace, drains, n - 1);
      if drains[n - 1].open then d.(state := Slip.Run(d.state, drains[n - 1].input)) else d
  }

  /** The packets turn `n` delivers. */
  ghost function PacketsIn(trace: seq<Q>, drains: seq<Drain>, n: nat): seq<Packet>
    requires Scheduled(trace, drains) && n < |drains|
  {
    if drains[n].open then Slip.Packets(Started(trace, drains, n).state, drains[n].input) else []
  }

  /** What turns `m` to `n - 1` read. */
  function Inputs(drains: seq<Drain>, m: nat, n: nat): seq<octet>
    requires n <= |drains|
  {
    if n <= m then [] else Inputs(drains, m, n - 1) + (if drains[n - 1].open then drains[n - 1].input else [])
  }

  /** What the decoder holds was read, since it last started afresh, under the one epoch it carries. */
  lemma {:induction false} OneEpoch(trace: seq<Q>, drains: seq<Drain>, n: nat)
    requires Scheduled(trace, drains) && n < |drains|
    ensures var d := Started(trace, drains, n);
            && d.epoch == trace[drains[n].time].epoch && d.since <= n
            && (forall m :: d.since <= m <= n ==> trace[drains[m].time].epoch == d.epoch)
            && d.state == Slip.Run(FRESH, Inputs(drains, d.since, n))
    decreases n
  {
    hide Slip.Run;
    var d := Started(trace, drains, n);
    RunNothing();
    if n > 0 {
      OneEpoch(trace, drains, n - 1);
      if d.since < n {
        var before := Started(trace, drains, n - 1);
        Slip.RunAppend(FRESH, Inputs(drains, d.since, n - 1), drains[n - 1].input);
        assert Inputs(drains, d.since, n - 1) + [] == Inputs(drains, d.since, n - 1);
      } else {
        assert Inputs(drains, n, n) == [];
      }
    }
  }

  lemma RunNothing()
    ensures Slip.Run(FRESH, []) == FRESH
  {
  }

  /** A packet that the serial transport gets queued was assembled from bytes read in one unbroken session,
      the one it is queued in: the session of every turn since the decoder last started afresh. What was
      read before, in whatever session, has no part in it. */
  lemma QueuedFromOneSession(trace: seq<Q>, events: seq<Event>, drains: seq<Drain>, n: nat, j: nat, packet: Packet,
                             physical: bool, room: bool)
    requires Interleaving(trace, events) && trace[0] == INITIAL && Scheduled(trace, drains)
    requires n < |drains| && packet in PacketsIn(trace, drains, n)
    requires forall m :: 0 <= m < n ==> drains[m].time <= drains[n].time
    requires drains[n].time <= j < |events|
    requires events[j] == DeliverEvent(packet, trace[drains[n].time].epoch, physical, room)
    requires |trace[j + 1].rx| > |trace[j].rx|
    ensures var since := Started(trace, drains, n).since;
            && since <= n
            && (forall m :: since <= m <= n ==> !trace[drains[m].time].dead && SameSession(trace[drains[m].time], trace[j]))
            && packet in Slip.Packets(FRESH, Inputs(drains, since, n + 1))
    ensures Last(trace[j + 1].rx) == Arrival(packet, trace[j].epoch, |trace[j].sessions|)
  {
    hide Slip.Run, Slip.Packets, Next, Enabled, Started, Drained;
    OneEpoch(trace, drains, n);
    var d, t := Started(trace, drains, n), drains[n].time;
    DeliveredWhereAssembled(trace, events, t, j, packet, physical, room);
    EpochMeansSession(trace, events, t, j);
    Slip.RunAppend(FRESH, Inputs(drains, d.since, n), drains[n].input);
    DeliveredNow(trace, events, j, packet, trace[t].epoch, physical, room);
    forall m | d.since <= m <= n ensures !trace[drains[m].time].dead && SameSession(trace[drains[m].time], trace[j]) {
      EpochMeansSession(trace, events, drains[m].time, j);
    }
  }

  lemma DeliveredNow(trace: seq<Q>, events: seq<Event>, j: nat, packet: Packet, token: nat, physical: bool, room: bool)
    requires Interleaving(trace, events) && j < |events| && events[j] == DeliverEvent(packet, token, physical, room)
    requires |trace[j + 1].rx| > |trace[j].rx|
    ensures token == trace[j].epoch && !trace[j].dead
  {
    assert trace[j + 1] == Next(trace[j], events[j]);
  }

  // ---- the WebSocket transport ---------------------------------------------------------------------

  /** One data callback: when it sampled the epoch, its two answers of `is_open`, and its event. */
  datatype Callback = Callback(time: nat, openFirst: bool, open: bool, event: WebSocket.Event)

  datatype Assembly = Assembly(staging: WebSocket.Staging, since: nat)

  ghost predicate Called(trace: seq<Q>, calls: seq<Callback>) {
    forall n :: 0 <= n < |calls| ==> calls[n].time < |trace|
  }

  /** What is staged once callback `n` has sampled the epoch. */
  ghost function Sampled(trace: seq<Q>, calls: seq<Callback>, n: nat): Assembly
    requires Called(trace, calls) && n < |calls|
    decreases n, 1
  {
    var a := Assembled(trace, calls, n);
    var epoch := trace[calls[n].time].epoch;
    if a.staging.epoch != epoch || !calls[n].openFirst then Assembly(WebSocket.Idle(epoch), n) else a
  }

  ghost function Assembled(trace: seq<Q>, calls: seq<Callback>, n: nat): Assembly
    requires Called(trace, calls) && n <= |calls|
    decreases n, 0
  {
    if n == 0 then Assembly(WebSocket.Idle(0), 0)
    else
      var a := Sampled(trace, calls, n - 1);
      if calls[n - 1].open then a.(staging := WebSocket.Handle(a.staging, a.staging.epoch, calls[n - 1].event).0) else a
  }

  /** The events of callbacks `m` to `n - 1` that found the session open. */
  function Events(calls: seq<Callback>, m: nat, n: nat): seq<WebSocket.Event>
    requires n <= |calls|
  {
    if n <= m then [] else Events(calls, m, n - 1) + (if calls[n - 1].open then [calls[n - 1].event] else [])
  }

  lemma {:induction false} OneEpochStaged(trace: seq<Q>, calls: seq<Callback>, n: nat)
    requires Called(trace, calls) && n < |calls|
    ensures var a := Sampled(trace, calls, n);
            && a.staging.epoch == trace[calls[n].time].epoch && a.since <= n
            && (forall m :: a.since <= m <= n ==> trace[calls[m].time].epoch == a.staging.epoch)
            && a.staging == WebSocket.After(WebSocket.Idle(a.staging.epoch), a.staging.epoch, Events(calls, a.since, n))
    decreases n
  {
    hide WebSocket.Handle, WebSocket.After;
    var a := Sampled(trace, calls, n);
    WebSocket.AfterNothing(WebSocket.Idle(a.staging.epoch), a.staging.epoch);
    if n > 0 {
      OneEpochStaged(trace, calls, n - 1);
      var b := Sampled(trace, calls, n - 1);
      WebSocket.HandleEpoch(b.staging, b.staging.epoch, calls[n - 1].event);
      if a.since < n {
        var epoch := a.staging.epoch;
        WebSocket.AfterOne(WebSocket.Idle(epoch), epoch, Events(calls, a.since, n - 1), calls[n - 1].event);
        assert Events(calls, a.since, n - 1) + [] == Events(calls, a.since, n - 1);
      } else {
        assert Events(calls, n, n) == [];
      }
    }
  }

  /** The same for the WebSocket transport: a packet it gets queued was staged in one unbroken session, the
      one it is queued in. */
  lemma StagedFromOneSession(trace: seq<Q>, events: seq<Event>, calls: seq<Callback>, n: nat, j: nat, packet: Packet,
                             physical: bool, room: bool)
    requires Interleaving(trace, events) && trace[0] == INITIAL && Called(trace, calls)
    requires n < |calls| && calls[n].open
    requires packet in WebSocket.Handle(Sampled(trace, calls, n).staging, trace[calls[n].time].epoch, calls[n].event).1
    requires forall m :: 0 <= m < n ==> calls[m].time <= calls[n].time
    requires calls[n].time <= j < |events|
    requires events[j] == DeliverEvent(packet, trace[calls[n].time].epoch, physical, room)
    requires |trace[j + 1].rx| > |trace[j].rx|
    ensures var since, epoch := Sampled(trace, calls, n).since, trace[calls[n].time].epoch;
            && since <= n
            && (forall m :: since <= m <= n ==> !trace[calls[m].time].dead && SameSession(trace[calls[m].time], trace[j]))
            && packet in WebSocket.Passed(WebSocket.Idle(epoch), epoch, Events(calls, since, n + 1))
    ensures Last(trace[j + 1].rx) == Arrival(packet, trace[j].epoch, |trace[j].sessions|)
  {
    hide WebSocket.Handle, WebSocket.After, WebSocket.Passed, Next, Enabled, Sampled, Assembled;
    OneEpochStaged(trace, calls, n);
    var a, t := Sampled(trace, calls, n), calls[n].time;
    DeliveredWhereAssembled(trace, events, t, j, packet, physical, room);
    EpochMeansSession(trace, events, t, j);
    WebSocket.AfterOne(WebSocket.Idle(a.staging.epoch), a.staging.epoch, Events(calls, a.since, n), calls[n].event);
    DeliveredNow(trace, events, j, packet, trace[t].epoch, physical, room);
    forall m | a.since <= m <= n ensures !trace[calls[m].time].dead && SameSession(trace[calls[m].time], trace[j]) {
      EpochMeansSession(trace, events, calls[m].time, j);
    }
  }
}
