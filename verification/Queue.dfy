/** The packet queues shared by the serial and WebSocket transports, as a concurrent protocol.

    Every public operation takes the queue mutex once, or twice around one wire send, so each
    mutex-guarded block is one atomic step. Any interleaving of the link callbacks, the reader, the
    writers, the transmit task and the owner is a sequence of these steps. */
module PacketQueue {
  import Crc

  type octet = bv8
  type Packet = seq<octet>

  const PROTOCOL_VERSION: octet := 1
  const KIND_LOG_STREAM: octet := 4
  const MAX_FRAME_SIZE: nat := 8192
  /** Header, log header, and 1024 bytes of text. */
  const MAX_LOG_FRAME_SIZE: nat := 12 + 4 + 1024
  /** One more than the largest count of borrowed packets; the counter wraps. */
  const COUNTS: nat := 0x1_0000_0000

  datatype Code = OK | INVALID_STATE | INVALID_ARG | INVALID_SIZE | NO_MEM | NOTHING_YET

  // ---- the state of the queues ------------------------------------------------------------

  /** A packet waiting for the reader, with the receive epoch its bytes came under and the session that
      was in force when it was queued, counting from one. */
  datatype Arrival = Arrival(packet: Packet, token: nat, session: nat)

  /** What one accepted session has seen: control frames accepted for sending and handed to the wire, log frames
      likewise, packets queued for the reader and taken by it. */
  datatype SessionLog = SessionLog(
    serial: nat, accepted: seq<Packet>, handed: seq<Packet>, logged: seq<Packet>, logsHanded: seq<Packet>,
    arrived: seq<Packet>, taken: seq<Packet>)

  /** The frame the transmit task has taken off a ring and not yet returned. */
  datatype Flight = Ground | Airborne(frame: Packet, log: bool, session: nat)

  datatype Q = Q(
    dead: bool, connected: bool, epoch: nat, linkSerial: nat, acceptedSerial: nat,
    rxBorrowed: nat, txPending: int, txBusy: bool, dropped: nat,
    rx: seq<Arrival>, tx: seq<Packet>, log: seq<Packet>,
    flight: Flight, sessions: seq<SessionLog>)

  const INITIAL: Q := Q(true, false, 0, 0, 0, 0, 0, false, 0, [], [], [], Ground, [])

  /** `physical` is what the driver says about the cable or the socket at that moment. */
  predicate IsOpen(q: Q, physical: bool) {
    !q.dead && q.connected && physical
  }

  function Last<T>(s: seq<T>): T
    requires s != []
  {
    s[|s| - 1]
  }

  function Amend(sessions: seq<SessionLog>, l: SessionLog): seq<SessionLog> {
    if sessions == [] then [] else sessions[..|sessions| - 1] + [l]
  }

  function Current(q: Q): SessionLog {
    if q.sessions == [] then SessionLog(0, [], [], [], [], [], []) else Last(q.sessions)
  }

  function PacketsOf(rx: seq<Arrival>): (r: seq<Packet>)
    ensures |r| == |rx| && forall i :: 0 <= i < |rx| ==> r[i] == rx[i].packet
  {
    seq(|rx|, i requires 0 <= i < |rx| => rx[i].packet)
  }

  // ---- the atomic steps -----------------------------------------------------------------------

  function Close(q: Q): Q {
    q.(dead := true, epoch := q.epoch + 1, rx := [], tx := [], log := [], txPending := 0)
  }

  function LinkChanged(q: Q, up: bool): Q {
    Close(q.(connected := up, linkSerial := if up then q.linkSerial + 1 else q.linkSerial))
  }

  function Begin(q: Q, physical: bool): (Q, Code) {
    if !q.dead || !(q.connected && physical) || q.linkSerial == q.acceptedSerial || q.txBusy || q.rxBorrowed != 0
    then (q, INVALID_STATE)
    else (Close(q).(acceptedSerial := q.linkSerial, dead := false,
                    sessions := q.sessions + [SessionLog(q.linkSerial, [], [], [], [], [], [])]), OK)
  }

  /** One look of the reader at its ring. */
  function Read(q: Q, physical: bool): (Q, Code, Packet) {
    if !IsOpen(q, physical) then (q, INVALID_STATE, [])
    else if q.rx == [] then (q, NOTHING_YET, [])
    else
      var p := q.rx[0].packet;
      var l := Current(q);
      (q.(rx := q.rx[1..], rxBorrowed := (q.rxBorrowed + 1) % COUNTS, sessions := Amend(q.sessions, l.(taken := l.taken + [p]))), OK, p)
  }

  /** The reader returns a buffer, or none. A buffer returned that was not borrowed is not noticed: the count
      wraps. */
  function EndRead(q: Q, returned: bool): Q {
    if !returned then q else q.(rxBorrowed := (q.rxBorrowed + COUNTS - 1) % COUNTS)
  }

  /** A packet assembled from bytes that were read under epoch `token`; `room` says whether the ring takes it. */
  function Deliver(q: Q, packet: Packet, token: nat, physical: bool, room: bool): Q {
    if !Crc.Verified(packet) || !IsOpen(q, physical) || token != q.epoch then q
    else if packet[0] != PROTOCOL_VERSION || !room then Close(q)
    else
      var l := Current(q);
      q.(rx := q.rx + [Arrival(packet, token, |q.sessions|)], sessions := Amend(q.sessions, l.(arrived := l.arrived + [packet])))
  }

  function CheckFrame(message: Packet, log: bool): Code {
    if |message| < 12 then INVALID_ARG
    else if |message| > (if log then MAX_LOG_FRAME_SIZE else MAX_FRAME_SIZE) then INVALID_SIZE
    else if log && message[1] != KIND_LOG_STREAM then INVALID_ARG
    else OK
  }

  function Enqueue(q: Q, message: Packet, log: bool, physical: bool, room: bool): (Q, Code) {
    if !CheckFrame(message, log).OK? then (q, CheckFrame(message, log))
    else if !IsOpen(q, physical) then (q, INVALID_STATE)
    else if !room then (if log then q.(dropped := q.dropped + 1) else Close(q).(dropped := q.dropped + 1), NO_MEM)
    else if log then
      var l := Current(q);
      (q.(log := q.log + [message], txPending := q.txPending + 1, sessions := Amend(q.sessions, l.(logged := l.logged + [message]))), OK)
    else
      var l := Current(q);
      (q.(tx := q.tx + [message], txPending := q.txPending + 1, sessions := Amend(q.sessions, l.(accepted := l.accepted + [message]))), OK)
  }

  /** The first half of a transmit service: takes a frame off a ring, control frames first. */
  function TxStart(q: Q, physical: bool): Q {
    if !IsOpen(q, physical) || q.txBusy then q
    else if q.tx != [] then
      var l := Current(q);
      q.(tx := q.tx[1..], txPending := q.txPending - 1, txBusy := true, flight := Airborne(q.tx[0], false, |q.sessions|),
         sessions := Amend(q.sessions, l.(handed := l.handed + [q.tx[0]])))
    else if q.log != [] then
      var l := Current(q);
      q.(log := q.log[1..], txPending := q.txPending - 1, txBusy := true, flight := Airborne(q.log[0], true, |q.sessions|),
         sessions := Amend(q.sessions, l.(logsHanded := l.logsHanded + [q.log[0]])))
    else q
  }

  /** The second half: the frame is returned; a failed send ends the session. */
  function TxFinish(q: Q, sent: bool): Q
    requires q.flight.Airborne?
  {
    (if sent then q else Close(q).(dropped := q.dropped + 1)).(txBusy := false, flight := Ground)
  }

  datatype Event =
    | LinkEvent(up: bool)
    | CloseEvent
    | BeginEvent(physical: bool)
    | ReadEvent(physical: bool)
    | EndReadEvent(returned: bool)
    | DeliverEvent(packet: Packet, token: nat, physical: bool, room: bool)
    | EnqueueEvent(message: Packet, log: bool, physical: bool, room: bool)
    | TxStartEvent(physical: bool)
    | TxFinishEvent(sent: bool)

  /** The transmit task returns only the frame it took. */
  predicate Enabled(q: Q, e: Event) {
    match e
    case TxFinishEvent(_) => q.flight.Airborne?
    case _ => true
  }

  function Next(q: Q, e: Event): Q
    requires Enabled(q, e)
  {
    match e
    case LinkEvent(up) => LinkChanged(q, up)
    case CloseEvent => Close(q)
    case BeginEvent(physical) => Begin(q, physical).0
    case ReadEvent(physical) => Read(q, physical).0
    case EndReadEvent(returned) => EndRead(q, returned)
    case DeliverEvent(packet, token, physical, room) => Deliver(q, packet, token, physical, room)
    case EnqueueEvent(message, log, physical, room) => Enqueue(q, message, log, physical, room).0
    case TxStartEvent(physical) => TxStart(q, physical)
    case TxFinishEvent(sent) => TxFinish(q, sent)
  }

  /** The states an interleaving passes through: `trace[i + 1]` follows from `trace[i]` by `events[i]`. */
  ghost predicate Interleaving(trace: seq<Q>, events: seq<Event>) {
    && |trace| == |events| + 1
    && forall i :: 0 <= i < |events| ==> Enabled(trace[i], events[i]) && trace[i + 1] == Next(trace[i], events[i])
  }

  // ---- what every interleaving keeps ---------------------------------------------------------------

  ghost predicate Accounting(q: Q) {
    && q.txPending == |q.tx| + |q.log|
    && (q.txBusy <==> q.flight.Airborne?)
    && (q.dead ==> q.rx == [] && q.tx == [] && q.log == [])
    && (!q.dead ==> q.connected && q.sessions != [])
  }

  /** Each link serial is accepted at most once, in strictly increasing order. */
  ghost predicate Serials(q: Q) {
    && q.acceptedSerial <= q.linkSerial
    && (!q.dead ==> q.acceptedSerial == q.linkSerial)
    && (q.sessions == [] ==> q.acceptedSerial == 0)
    && (q.sessions != [] ==> Last(q.sessions).serial == q.acceptedSerial)
    && (forall i :: 0 <= i < |q.sessions| ==> 0 < q.sessions[i].serial <= q.acceptedSerial)
    && (forall i, j :: 0 <= i < j < |q.sessions| ==> q.sessions[i].serial < q.sessions[j].serial)
  }

  /** What waits for the reader was received under the current epoch of the current session, and the
      frame on the wire belongs to the last accepted session. */
  ghost predicate Isolated(q: Q) {
    && (forall i :: 0 <= i < |q.rx| ==> q.rx[i].token == q.epoch && q.rx[i].session == |q.sessions|)
    && (forall i :: 0 <= i < |q.rx| ==> Crc.Verified(q.rx[i].packet) && q.rx[i].packet[0] == PROTOCOL_VERSION)
    && (q.flight.Airborne? ==> q.flight.session == |q.sessions|)
  }

  ghost predicate InOrder(l: SessionLog) {
    l.handed <= l.accepted && l.logsHanded <= l.logged && l.taken <= l.arrived
  }

  /** First in, first out, without a gap, in every session there ever was. */
  ghost predicate Fifo(q: Q) {
    && (forall i :: 0 <= i < |q.sessions| ==> InOrder(q.sessions[i]))
    && (!q.dead ==> Current(q).accepted == Current(q).handed + q.tx)
    && (!q.dead ==> Current(q).logged == Current(q).logsHanded + q.log)
    && (!q.dead ==> Current(q).arrived == Current(q).taken + PacketsOf(q.rx))
  }

  ghost predicate Inv(q: Q) {
    Accounting(q) && Serials(q) && Isolated(q) && Fifo(q)
  }

  lemma InitialInv()
    ensures Inv(INITIAL)
  {
  }

  lemma CloseInv(q: Q)
    requires Inv(q)
    ensures Inv(Close(q))
  {
  }

  lemma LinkInv(q: Q, up: bool)
    requires Inv(q)
    ensures Inv(LinkChanged(q, up))
  {
  }

  lemma BeginInv(q: Q, physical: bool)
    requires Inv(q)
    ensures Inv(Begin(q, physical).0)
  {
  }

  /** Replacing the record of the current session. */
  lemma AmendKeeps(q: Q, q': Q, l: SessionLog)
    requires Serials(q) && q.sessions != [] && q' == q.(rx := q'.rx, tx := q'.tx, log := q'.log, txPending := q'.txPending,
                                                       txBusy := q'.txBusy, flight := q'.flight, rxBorrowed := q'.rxBorrowed,
                                                       sessions := Amend(q.sessions, l))
    requires l.serial == Last(q.sessions).serial
    requires forall i :: 0 <= i < |q.sessions| ==> InOrder(q.sessions[i])
    ensures Serials(q') && Current(q') == l && |q'.sessions| == |q.sessions|
    ensures InOrder(l) ==> forall i :: 0 <= i < |q'.sessions| ==> InOrder(q'.sessions[i])
  {
  }

  lemma TakeFirst(rx: seq<Arrival>)
    requires rx != []
    ensures PacketsOf(rx) == [rx[0].packet] + PacketsOf(rx[1..])
  {
  }

  lemma ReadInv(q: Q, physical: bool)
    requires Inv(q)
    ensures Inv(Read(q, physical).0)
  {
    hide Crc.Verified, PacketsOf;
    if IsOpen(q, physical) && q.rx != [] {
      var l := Current(q);
      var l' := l.(taken := l.taken + [q.rx[0].packet]);
      var r := Read(q, physical).0;
      AmendKeeps(q, r, l');
      TakeFirst(q.rx);
      assert l'.arrived == l'.taken + PacketsOf(r.rx);
      assert InOrder(l');
      assert Accounting(r) && Fifo(r) && Isolated(r);
    }
  }

  lemma DeliverInv(q: Q, packet: Packet, token: nat, physical: bool, room: bool)
    requires Inv(q)
    ensures Inv(Deliver(q, packet, token, physical, room))
  {
    hide Crc.Verified;
    var q' := Deliver(q, packet, token, physical, room);
    if q' != q && q' != Close(q) {
      var l := Current(q);
      AmendKeeps(q, q', l.(arrived := l.arrived + [packet]));
      assert PacketsOf(q'.rx) == PacketsOf(q.rx) + [packet];
      assert l.arrived + [packet] == l.taken + PacketsOf(q'.rx);
    }
  }

  lemma EnqueueInv(q: Q, message: Packet, log: bool, physical: bool, room: bool)
    requires Inv(q)
    ensures Inv(Enqueue(q, message, log, physical, room).0)
  {
    if CheckFrame(message, log).OK? && IsOpen(q, physical) && room && !log {
      var l := Current(q);
      AmendKeeps(q, Enqueue(q, message, log, physical, room).0, l.(accepted := l.accepted + [message]));
      assert l.accepted + [message] == l.handed + (q.tx + [message]);
    } else if CheckFrame(message, log).OK? && IsOpen(q, physical) && room {
      var l := Current(q);
      AmendKeeps(q, Enqueue(q, message, log, physical, room).0, l.(logged := l.logged + [message]));
      assert l.logged + [message] == l.logsHanded + (q.log + [message]);
    }
  }

  lemma TxStartInv(q: Q, physical: bool)
    requires Inv(q)
    ensures Inv(TxStart(q, physical))
  {
    if IsOpen(q, physical) && !q.txBusy && q.tx != [] {
      var l := Current(q);
      AmendKeeps(q, TxStart(q, physical), l.(handed := l.handed + [q.tx[0]]));
      assert l.accepted == (l.handed + [q.tx[0]]) + q.tx[1..];
    } else if IsOpen(q, physical) && !q.txBusy && q.log != [] {
      var l := Current(q);
      AmendKeeps(q, TxStart(q, physical), l.(logsHanded := l.logsHanded + [q.log[0]]));
      assert l.logged == (l.logsHanded + [q.log[0]]) + q.log[1..];
    }
  }

  lemma NextInv(q: Q, e: Event)
    requires Inv(q) && Enabled(q, e)
    ensures Inv(Next(q, e))
  {
    hide Inv;
    match e
    case LinkEvent(up) => LinkInv(q, up);
    case CloseEvent => CloseInv(q);
    case BeginEvent(physical) => BeginInv(q, physical);
    case ReadEvent(physical) => ReadInv(q, physical);
    case EndReadEvent(returned) => EndReadInv(q, returned);
    case DeliverEvent(packet, token, physical, room) => DeliverInv(q, packet, token, physical, room);
    case EnqueueEvent(message, log, physical, room) => EnqueueInv(q, message, log, physical, room);
    case TxStartEvent(physical) => TxStartInv(q, physical);
    case TxFinishEvent(sent) => TxFinishInv(q, sent);
  }

  lemma EndReadInv(q: Q, returned: bool)
    requires Inv(q)
    ensures Inv(EndRead(q, returned))
  {
  }

  lemma TxFinishInv(q: Q, sent: bool)
    requires Inv(q) && q.flight.Airborne?
    ensures Inv(TxFinish(q, sent))
  {
  }

  /** Safety of the queues: in every state of every interleaving, serials, isolation, order and accounting hold. */
  lemma {:induction false} EveryInterleaving(trace: seq<Q>, events: seq<Event>, i: nat)
    requires Interleaving(trace, events) && trace[0] == INITIAL && i < |trace|
    ensures Inv(trace[i])
    decreases i
  {
    hide Inv;
    if i == 0 {
      InitialInv();
    } else {
      EveryInterleaving(trace, events, i - 1);
      NextInv(trace[i - 1], events[i - 1]);
    }
  }

  // ---- sessions over time ------------------------------------------------------------------------------

  /** Nothing happened between two states that a reader of the epoch could have missed. */
  predicate SameSession(q: Q, r: Q) {
    r.dead == q.dead && r.connected == q.connected && r.linkSerial == q.linkSerial && |r.sessions| == |q.sessions|
  }

  lemma EpochStep(q: Q, e: Event)
    requires Enabled(q, e)
    ensures Next(q, e).epoch >= q.epoch
    ensures Next(q, e).epoch == q.epoch ==> SameSession(q, Next(q, e))
  {
  }

  /** An epoch that is unchanged means an unbroken session. */
  lemma {:induction false} EpochMeansSession(trace: seq<Q>, events: seq<Event>, i: nat, j: nat)
    requires Interleaving(trace, events) && i <= j < |trace|
    ensures trace[i].epoch <= trace[j].epoch
    ensures trace[i].epoch == trace[j].epoch ==> SameSession(trace[i], trace[j])
    decreases j - i
  {
    hide Next, Enabled;
    if i < j {
      EpochMeansSession(trace, events, i, j - 1);
      assert trace[j - 1 + 1] == Next(trace[j - 1], events[j - 1]);
      EpochStep(trace[j - 1], events[j - 1]);
    }
  }

  /** A packet is queued only in the very session, still unbroken, whose epoch was sampled before its
      first byte was read. */
  lemma DeliveredWhereAssembled(trace: seq<Q>, events: seq<Event>, i: nat, j: nat, packet: Packet, physical: bool, room: bool)
    requires Interleaving(trace, events) && trace[0] == INITIAL && i <= j < |events|
    requires events[j] == DeliverEvent(packet, trace[i].epoch, physical, room)
    requires |trace[j + 1].rx| > |trace[j].rx|
    ensures !trace[i].dead && SameSession(trace[i], trace[j])
    ensures Last(trace[j + 1].rx) == Arrival(packet, trace[i].epoch, |trace[i].sessions|)
    ensures Crc.Verified(packet)
  {
    EpochMeansSession(trace, events, i, j);
    assert trace[j + 1] == Next(trace[j], events[j]);
  }

  /** The records of sessions that are over never change again, and the current one only grows. */
  ghost predicate Grown(l: SessionLog, l': SessionLog) {
    l'.serial == l.serial && l.accepted <= l'.accepted && l.handed <= l'.handed && l.logged <= l'.logged && l.logsHanded <= l'.logsHanded
    && l.arrived <= l'.arrived && l.taken <= l'.taken
  }

  ghost predicate HistoryKept(q: Q, r: Q) {
    && |q.sessions| <= |r.sessions|
    && (forall i :: 0 <= i < |q.sessions| - 1 ==> r.sessions[i] == q.sessions[i])
    && (forall i :: 0 <= i < |q.sessions| ==> Grown(q.sessions[i], r.sessions[i]))
  }

  lemma HistoryStep(q: Q, e: Event)
    requires Enabled(q, e)
    ensures HistoryKept(q, Next(q, e))
  {
    hide Crc.Verified;
  }

  lemma HistorySame(q: Q)
    ensures HistoryKept(q, q)
  {
  }

  lemma HistoryJoin(q: Q, r: Q, t: Q)
    requires HistoryKept(q, r) && HistoryKept(r, t)
    ensures HistoryKept(q, t)
  {
    forall i | 0 <= i < |q.sessions| ensures Grown(q.sessions[i], t.sessions[i]) {
      assert Grown(q.sessions[i], r.sessions[i]) && Grown(r.sessions[i], t.sessions[i]);
    }
  }

  lemma {:induction false} HistoryIsKept(trace: seq<Q>, events: seq<Event>, i: nat, j: nat)
    requires Interleaving(trace, events) && i <= j < |trace|
    ensures HistoryKept(trace[i], trace[j])
    decreases j - i
  {
    hide Next, Enabled, HistoryKept;
    if i == j {
      HistorySame(trace[i]);
    } else {
      HistoryIsKept(trace, events, i, j - 1);
      assert trace[j - 1 + 1] == Next(trace[j - 1], events[j - 1]);
      HistoryStep(trace[j - 1], events[j - 1]);
      HistoryJoin(trace[i], trace[j - 1], trace[j]);
    }
  }

  // ---- what went in and what came out, in events and results ------------------------------------------------

  /** What one event and its result bring to session `n`, counting from one: messages answered OK, frames put on
      the wire, packets that entered the reader's ring, packets the reader got. */
  datatype Traffic = Traffic(accepted: seq<Packet>, sent: seq<Packet>, logged: seq<Packet>, logsSent: seq<Packet>,
                             delivered: seq<Packet>, read: seq<Packet>)

  const SILENCE: Traffic := Traffic([], [], [], [], [], [])

  function Join(a: Traffic, b: Traffic): Traffic {
    Traffic(a.accepted + b.accepted, a.sent + b.sent, a.logged + b.logged, a.logsSent + b.logsSent,
            a.delivered + b.delivered, a.read + b.read)
  }

  function One(here: bool, p: Packet): seq<Packet> {
    if here then [p] else []
  }

  /** Event `e` takes `q` to `r`. A frame goes on the wire when the transmit task holds none before and one after. */
  function Passing(q: Q, e: Event, r: Q, n: nat): Traffic
    requires Enabled(q, e)
  {
    if |r.sessions| != n then SILENCE
    else
      match e
      case EnqueueEvent(message, log, physical, room) =>
        var ok := Enqueue(q, message, log, physical, room).1.OK?;
        SILENCE.(accepted := One(ok && !log, message), logged := One(ok && log, message))
      case TxStartEvent(_) =>
        if q.flight.Ground? && r.flight.Airborne?
        then SILENCE.(sent := One(!r.flight.log, r.flight.frame), logsSent := One(r.flight.log, r.flight.frame))
        else SILENCE
      case DeliverEvent(packet, _, _, _) => SILENCE.(delivered := One(|r.rx| > |q.rx|, packet))
      case ReadEvent(physical) => SILENCE.(read := One(Read(q, physical).1.OK?, Read(q, physical).2))
      case _ => SILENCE
  }

  /** The traffic of session `n` in the first `i` events. */
  function TrafficOf(trace: seq<Q>, events: seq<Event>, i: nat, n: nat): Traffic
    requires i <= |events| < |trace| && forall k :: 0 <= k < |events| ==> Enabled(trace[k], events[k])
  {
    if i == 0 then SILENCE else Join(TrafficOf(trace, events, i - 1, n), Passing(trace[i - 1], events[i - 1], trace[i], n))
  }

  function Recorded(l: SessionLog): Traffic {
    Traffic(l.accepted, l.handed, l.logged, l.logsHanded, l.arrived, l.taken)
  }

  /** One step records exactly what passes. */
  lemma StepRecorded(q: Q, e: Event, n: nat)
    requires Inv(q) && Enabled(q, e) && 0 < n
    ensures n <= |q.sessions| ==> n <= |Next(q, e).sessions|
    ensures n <= |Next(q, e).sessions| ==>
              Recorded(Next(q, e).sessions[n - 1]) ==
              Join(if n <= |q.sessions| then Recorded(q.sessions[n - 1]) else SILENCE, Passing(q, e, Next(q, e), n))
    ensures n > |Next(q, e).sessions| ==> Passing(q, e, Next(q, e), n) == SILENCE
  {
    hide Inv, Next, Passing, Join, Recorded;
    match e
    case EnqueueEvent(_, _, _, _) => EnqueueRecorded(q, e, n);
    case TxStartEvent(_) => TxStartRecorded(q, e, n);
    case DeliverEvent(_, _, _, _) => DeliverRecorded(q, e, n);
    case ReadEvent(_) => ReadRecorded(q, e, n);
    case _ => RestRecorded(q, e, n);
  }

  lemma EnqueueRecorded(q: Q, e: Event, n: nat)
    requires Inv(q) && Enabled(q, e) && 0 < n && e.EnqueueEvent?
    ensures n <= |q.sessions| ==> n <= |Next(q, e).sessions|
    ensures n <= |Next(q, e).sessions| ==>
              Recorded(Next(q, e).sessions[n - 1]) ==
              Join(if n <= |q.sessions| then Recorded(q.sessions[n - 1]) else SILENCE, Passing(q, e, Next(q, e), n))
    ensures n > |Next(q, e).sessions| ==> Passing(q, e, Next(q, e), n) == SILENCE
  {
    hide Crc.Verified, Serials, Isolated, Fifo;
  }

  lemma TxStartRecorded(q: Q, e: Event, n: nat)
    requires Inv(q) && Enabled(q, e) && 0 < n && e.TxStartEvent?
    ensures n <= |q.sessions| ==> n <= |Next(q, e).sessions|
    ensures n <= |Next(q, e).sessions| ==>
              Recorded(Next(q, e).sessions[n - 1]) ==
              Join(if n <= |q.sessions| then Recorded(q.sessions[n - 1]) else SILENCE, Passing(q, e, Next(q, e), n))
    ensures n > |Next(q, e).sessions| ==> Passing(q, e, Next(q, e), n) == SILENCE
  {
    hide Crc.Verified, Serials, Isolated, Fifo;
  }

  lemma DeliverRecorded(q: Q, e: Event, n: nat)
    requires Inv(q) && Enabled(q, e) && 0 < n && e.DeliverEvent?
    ensures n <= |q.sessions| ==> n <= |Next(q, e).sessions|
    ensures n <= |Next(q, e).sessions| ==>
              Recorded(Next(q, e).sessions[n - 1]) ==
              Join(if n <= |q.sessions| then Recorded(q.sessions[n - 1]) else SILENCE, Passing(q, e, Next(q, e), n))
    ensures n > |Next(q, e).sessions| ==> Passing(q, e, Next(q, e), n) == SILENCE
  {
    hide Crc.Verified, Serials, Isolated, Fifo;
  }

  lemma ReadRecorded(q: Q, e: Event, n: nat)
    requires Inv(q) && Enabled(q, e) && 0 < n && e.ReadEvent?
    ensures n <= |q.sessions| ==> n <= |Next(q, e).sessions|
    ensures n <= |Next(q, e).sessions| ==>
              Recorded(Next(q, e).sessions[n - 1]) ==
              Join(if n <= |q.sessions| then Recorded(q.sessions[n - 1]) else SILENCE, Passing(q, e, Next(q, e), n))
    ensures n > |Next(q, e).sessions| ==> Passing(q, e, Next(q, e), n) == SILENCE
  {
    hide Crc.Verified, Serials, Isolated, Fifo;
  }

  lemma RestRecorded(q: Q, e: Event, n: nat)
    requires Inv(q) && Enabled(q, e) && 0 < n && !e.EnqueueEvent? && !e.TxStartEvent? && !e.DeliverEvent? && !e.ReadEvent?
    ensures n <= |q.sessions| ==> n <= |Next(q, e).sessions|
    ensures n <= |Next(q, e).sessions| ==>
              Recorded(Next(q, e).sessions[n - 1]) ==
              Join(if n <= |q.sessions| then Recorded(q.sessions[n - 1]) else SILENCE, Passing(q, e, Next(q, e), n))
    ensures n > |Next(q, e).sessions| ==> Passing(q, e, Next(q, e), n) == SILENCE
  {
    hide Crc.Verified, Serials, Isolated, Fifo;
  }

  /** The records of every session are the truth about its events and results. */
  lemma {:induction false} RecordsAreTrue(trace: seq<Q>, events: seq<Event>, i: nat, n: nat)
    requires Interleaving(trace, events) && trace[0] == INITIAL && i < |trace| && 0 < n
    ensures TrafficOf(trace, events, i, n) == if n <= |trace[i].sessions| then Recorded(trace[i].sessions[n - 1]) else SILENCE
    decreases i
  {
    hide Inv, Next, Enabled, Passing;
    if i > 0 {
      RecordsAreTrue(trace, events, i - 1, n);
      EveryInterleaving(trace, events, i - 1);
      assert trace[i - 1 + 1] == Next(trace[i - 1], events[i - 1]);
      StepRecorded(trace[i - 1], events[i - 1], n);
    }
  }

  /** First in, first out, in events and results: in every interleaving, what a session puts on the wire is a
      prefix of what it answered OK, and what its reader gets is a prefix of what was delivered to it; so the
      k-th frame sent is the k-th one accepted, and no frame is sent twice, reordered or passed over. Control
      frames and log frames keep their order each. */
  lemma FirstInFirstOut(trace: seq<Q>, events: seq<Event>, i: nat, n: nat)
    requires Interleaving(trace, events) && trace[0] == INITIAL && i < |trace| && 0 < n
    ensures var t := TrafficOf(trace, events, i, n);
            && t.sent <= t.accepted && t.logsSent <= t.logged && t.read <= t.delivered
            && (!trace[i].dead && n == |trace[i].sessions| ==>
                  t.accepted == t.sent + trace[i].tx && t.logged == t.logsSent + trace[i].log
                  && t.delivered == t.read + PacketsOf(trace[i].rx))
  {
    hide Crc.Verified;
    RecordsAreTrue(trace, events, i, n);
    EveryInterleaving(trace, events, i);
  }

  /** When an enqueue is answered OK: on an open session with room in the ring, for a message of at least a header
      that fits a frame, and for a log message that is one and fits a log frame. */
  lemma EnqueuedExactly(q: Q, message: Packet, log: bool, physical: bool, room: bool)
    ensures Enqueue(q, message, log, physical, room).1.OK? <==>
              && !q.dead && q.connected && physical && room && 12 <= |message|
              && (if log then |message| <= 1040 && message[1] == 4 else |message| <= 8192)
  {
  }

  /** When a packet is delivered: it verifies, carries version 1, and comes under the epoch of the open session, and
      the ring has room. */
  lemma DeliveredExactly(q: Q, packet: Packet, token: nat, physical: bool, room: bool)
    ensures |Deliver(q, packet, token, physical, room).rx| > |q.rx| <==>
              && Crc.Verified(packet) && packet[0] == 1 && !q.dead && q.connected && physical && token == q.epoch && room
  {
  }

  /** When a transmit service takes a frame: on an open session with none in flight and one waiting. */
  lemma TakenExactly(q: Q, physical: bool)
    requires Inv(q)
    ensures TxStart(q, physical) != q <==>
              !q.dead && q.connected && physical && q.flight.Ground? && (q.tx != [] || q.log != [])
    ensures TxStart(q, physical) != q ==> TxStart(q, physical).flight.Airborne?
  {
  }

  /** What a flush that answers OK promises the caller: each message answered OK in the session has gone to the wire. */
  lemma FlushedMeans(trace: seq<Q>, events: seq<Event>, i: nat, physical: bool)
    requires Interleaving(trace, events) && trace[0] == INITIAL && i < |trace|
    requires IsOpen(trace[i], physical) && trace[i].txPending == 0 && !trace[i].txBusy
    ensures var t := TrafficOf(trace, events, i, |trace[i].sessions|); t.sent == t.accepted && t.logsSent == t.logged
  {
    hide Crc.Verified, Serials, Isolated, TrafficOf;
    EveryInterleaving(trace, events, i);
    FlushMeansSent(trace[i], physical);
    RecordsAreTrue(trace, events, i, |trace[i].sessions|);
  }

  // ---- packets in the reader's hands -----------------------------------------------------------------

  predicate Reads(q: Q, e: Event) {
    e.ReadEvent? && Read(q, e.physical).1.OK?
  }

  /** What one step adds to the packets read and not returned. */
  function Borrows(q: Q, e: Event): int {
    if Reads(q, e) then 1 else if e.EndReadEvent? && e.returned then -1 else 0
  }

  /** The packets read so far, less the packets returned. A reader that returns only what it holds, once, keeps
      this the number it holds. */
  function Outstanding(trace: seq<Q>, events: seq<Event>, i: nat): int
    requires i <= |events| <= |trace|
  {
    if i == 0 then 0 else Outstanding(trace, events, i - 1) + Borrows(trace[i - 1], events[i - 1])
  }

  lemma BorrowStep(q: Q, e: Event)
    requires Enabled(q, e)
    ensures Next(q, e).rxBorrowed ==
            if Borrows(q, e) == 0 then q.rxBorrowed else (q.rxBorrowed + COUNTS + Borrows(q, e)) % COUNTS
  {
    hide Crc.Verified;
    if Reads(q, e) {
      CountOn(q.rxBorrowed + 1);
    }
  }

  lemma CountOn(n: nat)
    ensures (n + COUNTS) % COUNTS == n % COUNTS
  {
  }

  /** The count of borrowed packets is exact, up to its width, in every interleaving. */
  lemma {:induction false} BorrowedExact(trace: seq<Q>, events: seq<Event>, i: nat)
    requires Interleaving(trace, events) && trace[0] == INITIAL && i < |trace|
    ensures trace[i].rxBorrowed == Outstanding(trace, events, i) % COUNTS
    decreases i
  {
    hide Next, Enabled, Borrows;
    if i > 0 {
      BorrowedExact(trace, events, i - 1);
      assert trace[i - 1 + 1] == Next(trace[i - 1], events[i - 1]);
      BorrowStep(trace[i - 1], events[i - 1]);
      Wraps(Outstanding(trace, events, i - 1), Borrows(trace[i - 1], events[i - 1]));
    }
  }

  lemma Wraps(n: int, d: int)
    ensures (n % COUNTS + COUNTS + d) % COUNTS == (n + d) % COUNTS
  {
    var k := n / COUNTS;
    assert n == COUNTS * k + n % COUNTS;
    Multiple(n + d, 1 - k);
    assert n + d + COUNTS * (1 - k) == n % COUNTS + COUNTS + d;
  }

  lemma Multiple(a: int, k: int)
    ensures (a + COUNTS * k) % COUNTS == a % COUNTS
  {
    var q, r := a / COUNTS, a % COUNTS;
    assert a + COUNTS * k == COUNTS * (q + k) + r;
  }

  /** When a session begins: on a live link not accepted before, with nothing in flight, and with as many
      packets returned as read, up to the width of the count. For a reader that returns what it holds, once,
      and nothing else, that means that it holds none. */
  lemma BeginsExactly(trace: seq<Q>, events: seq<Event>, i: nat, physical: bool)
    requires Interleaving(trace, events) && trace[0] == INITIAL && i < |trace|
    ensures var q := trace[i];
            Begin(q, physical).1.OK? <==>
              && q.dead && q.connected && physical && q.linkSerial != q.acceptedSerial && !q.txBusy
              && Outstanding(trace, events, i) % COUNTS == 0
    ensures 0 <= Outstanding(trace, events, i) < COUNTS && Begin(trace[i], physical).1.OK? ==> Outstanding(trace, events, i) == 0
  {
    BorrowedExact(trace, events, i);
  }

  /** What a return that breaks the rules hides, in every open session with a packet waiting and none borrowed: a
      buffer returned too much makes up for the packet read next, and once the link comes back a session
      begins while the reader still holds that packet. */
  lemma SurplusHides(q: Q)
    requires IsOpen(q, true) && q.rx != [] && q.rxBorrowed == 0 && !q.txBusy && q.acceptedSerial <= q.linkSerial
    ensures var q1 := EndRead(q, true);
            var q2 := Read(q1, true).0;
            var q3 := LinkChanged(q2, true);
            Read(q1, true).1.OK? && Begin(q3, true).1.OK? && |Begin(q3, true).0.sessions| == |q.sessions| + 1
  {
    assert Read(EndRead(q, true), true).0.rxBorrowed == 0;
  }

  /** Such a state is reached. */
  lemma SurplusExample(p: Packet) returns (trace: seq<Q>, events: seq<Event>)
    requires Crc.Verified(p) && p[0] == PROTOCOL_VERSION
    ensures Interleaving(trace, events) && trace[0] == INITIAL && |events| == 3
    ensures IsOpen(trace[3], true) && trace[3].rx != [] && trace[3].rxBorrowed == 0 && !trace[3].txBusy
    ensures trace[3].acceptedSerial <= trace[3].linkSerial
  {
    hide Crc.Verified;
    events := [LinkEvent(true), BeginEvent(true), DeliverEvent(p, 2, true, true)];
    var q1 := LinkChanged(INITIAL, true);
    var q2 := Begin(q1, true).0;
    trace := [INITIAL, q1, q2, Deliver(q2, p, 2, true, true)];
  }

  // ---- frames in flight ---------------------------------------------------------------------------------

  /** While a frame is on the wire no session can begin, so the frame that is finished is one of the
      session that is still the last accepted. */
  lemma {:induction false} FlightStays(trace: seq<Q>, events: seq<Event>, i: nat, j: nat)
    requires Interleaving(trace, events) && trace[0] == INITIAL && i <= j < |trace|
    requires forall k :: i <= k <= j ==> trace[k].flight.Airborne?
    ensures |trace[j].sessions| == |trace[i].sessions|
    decreases j - i
  {
    hide Inv;
    if i < j {
      FlightStays(trace, events, i, j - 1);
      EveryInterleaving(trace, events, j - 1);
      NoBeginInFlight(trace[j - 1], events[j - 1]);
    }
  }

  lemma NoBeginInFlight(q: Q, e: Event)
    requires Inv(q) && Enabled(q, e) && q.flight.Airborne?
    ensures |Next(q, e).sessions| == |q.sessions|
  {
  }

  /** A log frame leaves its ring only while no control frame waits. */
  lemma LogsYield(q: Q, physical: bool)
    requires TxStart(q, physical).flight != q.flight && TxStart(q, physical).flight.Airborne? && TxStart(q, physical).flight.log
    ensures q.tx == [] && q.log != [] && TxStart(q, physical).log == q.log[1..]
  {
  }

  /** What a flush that answers OK has seen: every control frame accepted in the session was handed to the wire. */
  lemma FlushMeansSent(q: Q, physical: bool)
    requires Inv(q) && IsOpen(q, physical) && q.txPending == 0 && !q.txBusy
    ensures Current(q).handed == Current(q).accepted && Current(q).logsHanded == Current(q).logged && q.log == [] && q.flight.Ground?
  {
  }

  // ---- the queues themselves ---------------------------------------------------------------------------

  datatype Taken = Nothing | Frame(bytes: Packet, log: bool)

  /** The mutex-guarded state. Each method is one critical section; `physical` and `room` are what the
      driver and the ring answer inside it. */
  class Queues {
    var dead: bool
    var connected: bool
    var epoch: nat
    var linkSerial: nat
    var acceptedLinkSerial: nat
    var rxBorrowed: nat
    var txPending: int
    var txBusy: bool
    var txDropped: nat
    var rxRing: seq<Packet>
    var txRing: seq<Packet>
    var logRing: seq<Packet>
    ghost var q: Q

    /** The fields are the state `q`, and `q` is one that an interleaving can reach. */
    ghost predicate Valid()
      reads this
    {
      && Inv(q)
      && q.dead == dead && q.connected == connected && q.epoch == epoch && q.linkSerial == linkSerial
      && q.acceptedSerial == acceptedLinkSerial && q.rxBorrowed == rxBorrowed && q.txPending == txPending
      && q.txBusy == txBusy && q.dropped == txDropped
      && PacketsOf(q.rx) == rxRing && q.tx == txRing && q.log == logRing
    }

    constructor ()
      ensures Valid() && q == INITIAL
    {
      dead, connected, epoch, linkSerial, acceptedLinkSerial, rxBorrowed := true, false, 0, 0, 0, 0;
      txPending, txBusy, txDropped := 0, false, 0;
      rxRing, txRing, logRing := [], [], [];
      q := INITIAL;
      InitialInv();
    }

    predicate LinkIsOpen(physical: bool)
      reads this
    {
      !dead && connected && physical
    }

    /** Latches the transport closed and empties the rings. */
    method DrainAll()
      modifies this`dead, this`epoch, this`rxRing, this`txRing, this`logRing, this`txPending
      ensures dead && epoch == old(epoch) + 1 && rxRing == [] && txRing == [] && logRing == [] && txPending == 0
    {
      dead, epoch := true, epoch + 1;
      rxRing, txRing, logRing, txPending := [], [], [], 0;
    }

    method CloseLocked()
      requires Valid()
      modifies this
      ensures Valid() && q == Close(old(q))
    {
      hide Inv;
      CloseInv(q);
      DrainAll();
      q := Close(q);
    }

    /** Called on both boundaries of a connection. */
    method LinkChangedTo(up: bool)
      requires Valid()
      modifies this
      ensures Valid() && q == LinkChanged(old(q), up)
    {
      hide Inv;
      LinkInv(q, up);
      connected := up;
      if up {
        linkSerial := linkSerial + 1;
      }
      DrainAll();
      q := LinkChanged(q, up);
    }

    /** Accepts the current connection as a fresh session. */
    method BeginSession(physical: bool) returns (code: Code)
      requires Valid()
      modifies this
      ensures Valid() && (q, code) == Begin(old(q), physical)
    {
      hide Inv;
      BeginInv(q, physical);
      if !dead || !(connected && physical) || linkSerial == acceptedLinkSerial || txBusy || rxBorrowed != 0 {
        return INVALID_STATE;
      }
      DrainAll();
      acceptedLinkSerial, dead := linkSerial, false;
      q := Begin(q, physical).0;
      code := OK;
    }

    method StartRead(physical: bool) returns (code: Code, packet: Packet)
      requires Valid()
      modifies this
      ensures Valid() && (q, code, packet) == Read(old(q), physical)
    {
      hide Inv;
      ReadInv(q, physical);
      if !LinkIsOpen(physical) {
        return INVALID_STATE, [];
      }
      if rxRing == [] {
        return NOTHING_YET, [];
      }
      packet, rxRing := rxRing[0], rxRing[1..];
      rxBorrowed := (rxBorrowed + 1) % COUNTS;
      TakeFirst(q.rx);
      q := Read(q, physical).0;
      code := OK;
    }

    method EndReading(returned: bool)
      requires Valid()
      modifies this
      ensures Valid() && q == EndRead(old(q), returned)
    {
      hide Inv;
      EndReadInv(q, returned);
      if returned {
        rxBorrowed := (rxBorrowed + COUNTS - 1) % COUNTS;
      }
      q := EndRead(q, returned);
    }

    method DeliverPacket(packet: Packet, receivedEpoch: nat, physical: bool, room: bool)
      requires Valid()
      modifies this
      ensures Valid() && q == Deliver(old(q), packet, receivedEpoch, physical, room)
    {
      hide Inv, Crc.Verified;
      DeliverInv(q, packet, receivedEpoch, physical, room);
      if !Crc.Verified(packet) {
        return;
      }
      VerifiedSize(packet);
      if !LinkIsOpen(physical) || receivedEpoch != epoch {
        return;
      }
      if packet[0] != PROTOCOL_VERSION || !room {
        CloseLocked();
      } else {
        rxRing := rxRing + [packet];
        q := Deliver(q, packet, receivedEpoch, physical, room);
      }
    }

    method EnqueueFrame(message: Packet, log: bool, physical: bool, room: bool) returns (code: Code)
      requires Valid()
      modifies this
      ensures Valid() && (q, code) == Enqueue(old(q), message, log, physical, room)
    {
      hide Inv;
      EnqueueInv(q, message, log, physical, room);
      ghost var q' := Enqueue(q, message, log, physical, room).0;
      code := CheckFrame(message, log);
      if !code.OK? {
        return;
      }
      if !LinkIsOpen(physical) {
        return INVALID_STATE;
      }
      if !room {
        if !log {
          CloseLocked();
        }
        txDropped := txDropped + 1;
        q := q';
        return NO_MEM;
      }
      if log {
        logRing := logRing + [message];
      } else {
        txRing := txRing + [message];
      }
      txPending := txPending + 1;
      q := q';
    }

    /** The first critical section of the transmit service. */
    method ServiceTxTake(physical: bool) returns (item: Taken)
      requires Valid()
      modifies this
      ensures Valid() && q == TxStart(old(q), physical)
      ensures item.Frame? ==> q.flight == Airborne(item.bytes, item.log, |q.sessions|)
      ensures item.Nothing? ==> q == old(q)
    {
      hide Inv;
      TxStartInv(q, physical);
      if !LinkIsOpen(physical) || txBusy {
        return Nothing;
      }
      if txRing != [] {
        item, txRing := Frame(txRing[0], false), txRing[1..];
      } else if logRing != [] {
        item, logRing := Frame(logRing[0], true), logRing[1..];
      } else {
        return Nothing;
      }
      txPending, txBusy := txPending - 1, true;
      q := TxStart(q, physical);
    }

    /** The second critical section, after the frame was sent or not. */
    method ServiceTxReturn(sent: bool)
      requires Valid() && txBusy
      modifies this
      ensures old(Valid() && q.flight.Airborne?) && Valid() && q == TxFinish(old(q), sent)
    {
      BusyIsAirborne(q);
      hide Inv;
      TxFinishInv(q, sent);
      ghost var q' := TxFinish(q, sent);
      if !sent {
        txDropped := txDropped + 1;
        DrainAll();
      }
      txBusy := false;
      q := q';
    }

    /** One look of a flush: OK means that every control frame of the session was handed to the wire. */
    method FlushWrite(physical: bool) returns (code: Code)
      requires Valid()
      ensures code == if !IsOpen(q, physical) then INVALID_STATE else if q.txPending == 0 && !q.txBusy then OK else NOTHING_YET
      ensures code.OK? ==> Current(q).handed == Current(q).accepted && Current(q).logsHanded == Current(q).logged && q.flight.Ground?
    {
      if !LinkIsOpen(physical) {
        return INVALID_STATE;
      }
      if txPending == 0 && !txBusy {
        FlushMeansSent(q, physical);
        return OK;
      }
      code := NOTHING_YET;
    }
  }

  lemma VerifiedSize(packet: Packet)
    requires Crc.Verified(packet)
    ensures |packet| >= 12
  {
  }

  lemma BusyIsAirborne(q: Q)
    requires Inv(q) && q.txBusy
    ensures q.flight.Airborne?
  {
  }
}
