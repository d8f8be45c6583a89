/** The byte stream of the serial transport: SLIP framing (RFC 1055) of messages up to one frame. */
module Slip {

  type octet = bv8

  const SLIP_END: octet := 0xC0
  const SLIP_ESC: octet := 0xDB
  const SLIP_ESC_END: octet := 0xDC
  const SLIP_ESC_ESC: octet := 0xDD
  const MAX_FRAME_SIZE: nat := 8192

  // ---- what the encoding is ------------------------------------------------------------

  function EscapedByte(b: octet): (r: seq<octet>)
    ensures 1 <= |r| <= 2
  {
    if b == SLIP_END then [SLIP_ESC, SLIP_ESC_END]
    else if b == SLIP_ESC then [SLIP_ESC, SLIP_ESC_ESC]
    else [b]
  }

  function Escaped(message: seq<octet>): seq<octet> {
    if message == [] then []
    else Escaped(message[..|message| - 1]) + EscapedByte(message[|message| - 1])
  }

  function Encoded(message: seq<octet>): seq<octet> {
    [SLIP_END] + Escaped(message) + [SLIP_END]
  }

  function EncodedAll(messages: seq<seq<octet>>): seq<octet> {
    if messages == [] then [] else EncodedAll(messages[..|messages| - 1]) + Encoded(messages[|messages| - 1])
  }

  /** Each byte takes at most two, and no END can appear inside. */
  lemma {:induction false} EscapedSize(message: seq<octet>)
    ensures |message| <= |Escaped(message)| <= 2 * |message|
    ensures SLIP_END !in Escaped(message)
  {
    if message != [] {
      EscapedSize(message[..|message| - 1]);
    }
  }

  lemma EscapedNext(message: seq<octet>, i: nat)
    requires i < |message|
    ensures Escaped(message[..i + 1]) == Escaped(message[..i]) + EscapedByte(message[i])
  {
    assert message[..i + 1][..i] == message[..i];
  }

  /** The encoder of the transport: fills the transmit buffer byte by byte. */
  class Encoder {
    const buffer: array<octet>
    var size: nat

    ghost predicate Valid()
      reads this
    {
      buffer.Length == 2 * MAX_FRAME_SIZE + 2 && size <= buffer.Length
    }

    function Sent(): seq<octet>
      requires size <= buffer.Length
      reads this, buffer
    {
      buffer[..size]
    }

    constructor ()
      ensures Valid() && fresh(buffer)
    {
      buffer := new octet[2 * MAX_FRAME_SIZE + 2](i => 0);
      size := 0;
    }

    method AppendTxByte(b: octet)
      requires Valid() && size < buffer.Length
      modifies this, buffer
      ensures Valid() && Sent() == old(Sent()) + [b]
    {
      buffer[size] := b;
      size := size + 1;
    }

    method AppendEscapedTxByte(b: octet)
      requires Valid() && size + 2 <= buffer.Length
      modifies this, buffer
      ensures Valid() && Sent() == old(Sent()) + EscapedByte(b)
    {
      if b == SLIP_END {
        AppendTxByte(SLIP_ESC);
        AppendTxByte(SLIP_ESC_END);
      } else if b == SLIP_ESC {
        AppendTxByte(SLIP_ESC);
        AppendTxByte(SLIP_ESC_ESC);
      } else {
        AppendTxByte(b);
      }
    }

    /** No message of one frame overruns the buffer. */
    method EncodeMessage(message: seq<octet>)
      requires Valid() && |message| <= MAX_FRAME_SIZE
      modifies this, buffer
      ensures Valid() && Sent() == Encoded(message)
    {
      hide Escaped, EscapedByte;
      size := 0;
      AppendTxByte(SLIP_END);
      assert Escaped(message[..0]) == [] by { EscapedSize(message[..0]); }
      for i := 0 to |message|
        invariant Valid() && Sent() == [SLIP_END] + Escaped(message[..i])
        invariant size <= 2 * i + 1
      {
        EscapedNext(message, i);
        ghost var before := size;
        AppendEscapedTxByte(message[i]);
        assert |Sent()| == before + |EscapedByte(message[i])|;
      }
      assert message[..|message|] == message;
      AppendTxByte(SLIP_END);
    }
  }

  // ---- what the decoder does ------------------------------------------------------------------

  /** The decoder between two bytes. `frame` is what it has decoded of the frame in progress. */
  datatype State = State(receiving: bool, escaping: bool, discarded: bool, frame: seq<octet>)

  const READY: State := State(true, false, false, [])

  function Append(d: State, b: octet): State {
    if |d.frame| == MAX_FRAME_SIZE then d.(discarded := true) else d.(frame := d.frame + [b])
  }

  /** The frame an END byte completes, if any. */
  function Completed(d: State): seq<seq<octet>> {
    if d.receiving && !d.escaping && !d.discarded && d.frame != [] then [d.frame] else []
  }

  function Next(d: State, b: octet): State {
    if b == SLIP_END then READY
    else if !d.receiving || d.discarded then d
    else if d.escaping then
      if b == SLIP_ESC_END then Append(d.(escaping := false), SLIP_END)
      else if b == SLIP_ESC_ESC then Append(d.(escaping := false), SLIP_ESC)
      else d.(escaping := false, discarded := true)
    else if b == SLIP_ESC then d.(escaping := true)
    else Append(d, b)
  }

  function Run(d: State, stream: seq<octet>): State {
    if stream == [] then d else Next(Run(d, stream[..|stream| - 1]), stream[|stream| - 1])
  }

  /** The packets passed on while `stream` is consumed. */
  function Packets(d: State, stream: seq<octet>): seq<seq<octet>> {
    if stream == [] then []
    else
      var n := |stream| - 1;
      Packets(d, stream[..n]) + (if stream[n] == SLIP_END then Completed(Run(d, stream[..n])) else [])
  }

  lemma {:induction false} RunAppend(d: State, a: seq<octet>, b: seq<octet>)
    ensures Run(d, a + b) == Run(Run(d, a), b)
    ensures Packets(d, a + b) == Packets(d, a) + Packets(Run(d, a), b)
    decreases |b|
  {
    if b == [] {
      assert a + b == a;
    } else {
      var n := |b| - 1;
      assert (a + b)[..|a + b| - 1] == a + b[..n];
      RunAppend(d, a, b[..n]);
    }
  }

  lemma RunOne(d: State, b: octet)
    ensures Run(d, [b]) == Next(d, b)
    ensures Packets(d, [b]) == if b == SLIP_END then Completed(d) else []
  {
    assert [b][..0] == [];
    assert Run(d, [b][..0]) == d;
  }

  /** An escaped byte comes out as itself. */
  lemma ByteRoundTrip(d: State, b: octet)
    requires d.receiving && !d.escaping && !d.discarded && |d.frame| < MAX_FRAME_SIZE
    ensures Run(d, EscapedByte(b)) == d.(frame := d.frame + [b])
    ensures Packets(d, EscapedByte(b)) == []
  {
    if b == SLIP_END || b == SLIP_ESC {
      var e := if b == SLIP_END then SLIP_ESC_END else SLIP_ESC_ESC;
      assert EscapedByte(b) == [SLIP_ESC] + [e];
      RunAppend(d, [SLIP_ESC], [e]);
      RunOne(d, SLIP_ESC);
      RunOne(Next(d, SLIP_ESC), e);
    } else {
      RunOne(d, b);
    }
  }

  lemma {:induction false} BodyRoundTrip(message: seq<octet>)
    requires |message| <= MAX_FRAME_SIZE
    ensures Run(READY, Escaped(message)) == READY.(frame := message)
    ensures Packets(READY, Escaped(message)) == []
    decreases |message|
  {
    hide Run, Packets, EscapedByte;
    if message == [] {
      StreamNothing(READY);
    } else {
      var n := |message| - 1;
      BodyRoundTrip(message[..n]);
      RunAppend(READY, Escaped(message[..n]), EscapedByte(message[n]));
      ByteRoundTrip(READY.(frame := message[..n]), message[n]);
      assert message[..n] + [message[n]] == message;
    }
  }

  /** How far an undisturbed decoder has come: what it took is the encoding of what it holds, up to an ESC that
      waits for its other half. */
  lemma {:induction false} TakenSoFar(body: seq<octet>)
    requires SLIP_END !in body
    ensures var d := Run(READY, body);
            && d.receiving && |d.frame| <= MAX_FRAME_SIZE
            && (!d.discarded ==> body == Escaped(d.frame) + (if d.escaping then [SLIP_ESC] else []))
    ensures Packets(READY, body) == []
    decreases |body|
  {
    hide Next, Escaped, EscapedByte;
    if body == [] {
      StreamNothing(READY);
      assert Escaped([]) == [] by { EscapedSize([]); }
    } else {
      var n := |body| - 1;
      TakenSoFar(body[..n]);
      TakesByte(Run(READY, body[..n]), body[..n], body[n]);
      assert body == body[..n] + [body[n]];
    }
  }

  lemma TakesByte(d: State, taken: seq<octet>, b: octet)
    requires d.receiving && |d.frame| <= MAX_FRAME_SIZE && b != SLIP_END
    requires !d.discarded ==> taken == Escaped(d.frame) + (if d.escaping then [SLIP_ESC] else [])
    ensures var d' := Next(d, b);
            && d'.receiving && |d'.frame| <= MAX_FRAME_SIZE
            && (!d'.discarded ==> taken + [b] == Escaped(d'.frame) + (if d'.escaping then [SLIP_ESC] else []))
  {
    hide Escaped;
    var d' := Next(d, b);
    if !d'.discarded && !d'.escaping {
      var f, c := d.frame, d'.frame[|d.frame|];
      assert d'.frame == f + [c] && d'.frame[..|f|] == f;
      assert Escaped(d'.frame) == Escaped(f) + EscapedByte(c) by { EscapedNext(d'.frame, |f|); assert d'.frame[..|f| + 1] == d'.frame; }
      assert taken + [b] == Escaped(f) + EscapedByte(c);
    }
  }

  /** The decoder passes on exactly what was encoded: the bytes between two ENDs give a packet if and only if they
      are the encoding of it, and it is not empty and fits a frame. A broken escape, an ESC at the end and an
      overlong frame give nothing. */
  lemma DecodesExactly(body: seq<octet>, p: seq<octet>)
    requires SLIP_END !in body
    ensures Packets(READY, body + [SLIP_END]) == [p] <==> body == Escaped(p) && 0 < |p| <= 8192
    ensures Run(READY, body + [SLIP_END]) == READY && |Packets(READY, body + [SLIP_END])| <= 1
  {
    hide Run, Packets, Escaped;
    TakenSoFar(body);
    RunAppend(READY, body, [SLIP_END]);
    RunOne(Run(READY, body), SLIP_END);
    if body == Escaped(p) && |p| <= MAX_FRAME_SIZE {
      BodyRoundTrip(p);
    }
    if Packets(READY, body + [SLIP_END]) == [p] {
      assert Completed(Run(READY, body)) == [p];
      assert body == Escaped(p) + [];
    }
  }

  /** The bytes of section 1 of RFC 1055. */
  lemma WireBytes(b: octet)
    ensures Encoded([0xC0, 0x41, 0xDB]) == [0xC0, 0xDB, 0xDC, 0x41, 0xDB, 0xDD, 0xC0]
    ensures b != 0xC0 && b != 0xDB ==> EscapedByte(b) == [b]
  {
    hide Escaped;
    var m: seq<octet> := [0xC0, 0x41, 0xDB];
    EscapedNext(m, 0);
    EscapedNext(m, 1);
    EscapedNext(m, 2);
    EscapedSize(m[..0]);
    assert m[..3] == m;
    assert Escaped(m) == [0xDB, 0xDC] + [0x41] + [0xDB, 0xDD];
  }

  /** One message from any decoder state: at most the leftover frame, and then the message. */
  lemma MessageRoundTrip(d: State, message: seq<octet>)
    requires 0 < |message| <= MAX_FRAME_SIZE
    ensures Run(d, Encoded(message)) == READY
    ensures Packets(d, Encoded(message)) == Completed(d) + [message]
  {
    hide Run, Packets, Escaped;
    RunAppend(d, [SLIP_END], Escaped(message));
    RunOne(d, SLIP_END);
    BodyRoundTrip(message);
    RunAppend(d, [SLIP_END] + Escaped(message), [SLIP_END]);
    RunOne(READY.(frame := message), SLIP_END);
  }

  /** Round trip and resynchronisation: whatever the decoder went through before, every message of the
      stream comes out, in order, after at most one leftover packet. */
  lemma {:induction false} StreamRoundTrip(d: State, messages: seq<seq<octet>>)
    requires forall i :: 0 <= i < |messages| ==> 0 < |messages[i]| <= MAX_FRAME_SIZE
    ensures Packets(d, EncodedAll(messages)) == (if messages == [] then [] else Completed(d)) + messages
    ensures Run(d, EncodedAll(messages)) == if messages == [] then d else READY
    decreases |messages|
  {
    hide Run, Packets, Encoded;
    if messages == [] {
      StreamNothing(d);
    } else {
      var n := |messages| - 1;
      var before := EncodedAll(messages[..n]);
      StreamRoundTrip(d, messages[..n]);
      RunAppend(d, before, Encoded(messages[n]));
      MessageRoundTrip(Run(d, before), messages[n]);
      assert messages == messages[..n] + [messages[n]];
      assert Completed(READY) == [];
    }
  }

  lemma StreamNothing(d: State)
    ensures Packets(d, []) == [] && Run(d, []) == d
  {
  }

  /** No input makes the decoder pass on an empty or an oversized packet. */
  lemma {:induction false} PacketsFit(d: State, stream: seq<octet>)
    requires |d.frame| <= MAX_FRAME_SIZE
    ensures |Run(d, stream).frame| <= MAX_FRAME_SIZE
    ensures forall p :: p in Packets(d, stream) ==> 0 < |p| <= MAX_FRAME_SIZE
    decreases |stream|
  {
    if stream != [] {
      PacketsFit(d, stream[..|stream| - 1]);
    }
  }

  function Flatten(chunks: seq<seq<octet>>): seq<octet> {
    if chunks == [] then [] else Flatten(chunks[..|chunks| - 1]) + chunks[|chunks| - 1]
  }

  /** Every byte of every packet came under `epoch`. */
  ghost predicate ReadUnder(packets: seq<seq<octet>>, origins: seq<seq<nat>>, epoch: nat) {
    && |origins| == |packets|
    && forall i :: 0 <= i < |packets| ==>
         |origins[i]| == |packets[i]| && forall j :: 0 <= j < |origins[i]| ==> origins[i][j] == epoch
  }

  lemma ReadUnderBoth(p: seq<seq<octet>>, o: seq<seq<nat>>, p': seq<seq<octet>>, o': seq<seq<nat>>, epoch: nat)
    requires ReadUnder(p, o, epoch) && ReadUnder(p', o', epoch)
    ensures ReadUnder(p + p', o + o', epoch)
  {
  }

  lemma RunsNothing(d: State)
    ensures Run(d, []) == d && Packets(d, []) == []
  {
  }

  lemma NothingRead(epoch: nat)
    ensures ReadUnder([], [], epoch)
  {
  }

  // ---- the decoder itself -----------------------------------------------------------------------

  /** The byte-at-a-time decoder over a fixed frame buffer. `epoch` is the receive epoch of the session
      whose bytes it is assembling; `sources` records the epoch each byte of the frame came under. */
  class Decoder {
    const frameBuffer: array<octet>
    var frameSize: nat
    var receivingFrame: bool
    var escapePending: bool
    var frameDiscarded: bool
    var epoch: nat
    ghost var sources: seq<nat>

    ghost predicate Valid()
      reads this
    {
      && frameBuffer.Length == MAX_FRAME_SIZE && frameSize <= MAX_FRAME_SIZE
      && |sources| == frameSize && forall i :: 0 <= i < |sources| ==> sources[i] == epoch
    }

    function Model(): State
      requires frameSize <= frameBuffer.Length
      reads this, frameBuffer
    {
      State(receivingFrame, escapePending, frameDiscarded, frameBuffer[..frameSize])
    }

    constructor ()
      ensures Valid() && fresh(frameBuffer) && Model() == State(false, false, false, [])
    {
      frameBuffer := new octet[MAX_FRAME_SIZE](i => 0);
      frameSize, receivingFrame, escapePending, frameDiscarded, epoch := 0, false, false, false, 0;
      sources := [];
    }

    method ResetFrameState()
      requires frameBuffer.Length == MAX_FRAME_SIZE
      modifies this`frameSize, this`frameDiscarded, this`escapePending, this`sources
      ensures Valid() && frameSize == 0 && !frameDiscarded && !escapePending
    {
      frameSize, frameDiscarded, escapePending := 0, false, false;
      sources := [];
    }

    method AppendDecodedByte(b: octet)
      requires Valid()
      modifies this`frameSize, this`frameDiscarded, this`sources, frameBuffer
      ensures Valid() && Model() == Append(old(Model()), b)
    {
      if frameSize == MAX_FRAME_SIZE {
        frameDiscarded := true;
        return;
      }
      frameBuffer[frameSize] := b;
      frameSize := frameSize + 1;
      sources := sources + [epoch];
    }

    /** Consumes one byte; true when it completes a frame, which is then still in the buffer. */
    method ConsumeInputByte(b: octet) returns (complete: bool)
      requires Valid()
      modifies this`frameSize, this`receivingFrame, this`escapePending, this`frameDiscarded, this`sources, frameBuffer
      ensures Valid()
      ensures complete <==> b == SLIP_END && Completed(old(Model())) != []
      ensures complete ==> Model() == old(Model()) && Completed(old(Model())) == [frameBuffer[..frameSize]]
      ensures !complete ==> Model() == Next(old(Model()), b)
    {
      if b == SLIP_END {
        if !receivingFrame {
          receivingFrame := true;
          ResetFrameState();
          return false;
        }
        if escapePending {
          ResetFrameState();
          return false;
        }
        if frameDiscarded {
          ResetFrameState();
          return false;
        }
        if frameSize == 0 {
          return false;
        }
        return true;
      }
      if !receivingFrame || frameDiscarded {
        return false;
      }
      if escapePending {
        escapePending := false;
        if b == SLIP_ESC_END {
          AppendDecodedByte(SLIP_END);
        } else if b == SLIP_ESC_ESC {
          AppendDecodedByte(SLIP_ESC);
        } else {
          frameDiscarded := true;
        }
        return false;
      }
      if b == SLIP_ESC {
        escapePending := true;
      } else {
        AppendDecodedByte(b);
      }
      complete := false;
    }

    /** Reads everything the driver has, chunk by chunk, under the epoch sampled at the start. Whether the
        session is open is sampled twice: a decoder left over from another epoch, or from a session closed at
        the first sample, starts afresh; a session closed at the second reads nothing. */
    method DrainCdcInput(currentEpoch: nat, openFirst: bool, open: bool, chunks: seq<seq<octet>>)
      returns (packets: seq<seq<octet>>, ghost origins: seq<seq<nat>>)
      requires Valid()
      modifies this, frameBuffer
      ensures Valid() && epoch == currentEpoch
      ensures var start := if old(epoch) != currentEpoch || !openFirst then State(false, false, false, []) else old(Model());
              var stream := if open then Flatten(chunks) else [];
              packets == Packets(start, stream) && Model() == Run(start, stream)
      ensures ReadUnder(packets, origins, currentEpoch)
    {
      hide ReadUnder, Run, Packets;
      NothingRead(currentEpoch);
      RunsNothing(State(false, false, false, []));
      RunsNothing(Model());
      packets, origins := [], [];
      if epoch != currentEpoch || !openFirst {
        ResetFrameState();
        receivingFrame, epoch := false, currentEpoch;
        assert Model() == State(false, false, false, []);
      }
      if !open {
        return;
      }
      ghost var start := Model();
      for n := 0 to |chunks|
        invariant Valid() && epoch == currentEpoch
        invariant ReadUnder(packets, origins, currentEpoch)
        invariant packets == Packets(start, Flatten(chunks[..n])) && Model() == Run(start, Flatten(chunks[..n]))
      {
        assert chunks[..n + 1][..n] == chunks[..n];
        var passed, came := ConsumeChunk(chunks[n]);
        RunAppend(start, Flatten(chunks[..n]), chunks[n]);
        ReadUnderBoth(packets, origins, passed, came, currentEpoch);
        packets, origins := packets + passed, origins + came;
      }
      assert chunks[..|chunks|] == chunks;
    }

    /** Consumes one chunk; `origins` says under which epoch each byte of each packet passed on was read. */
    method ConsumeChunk(chunk: seq<octet>) returns (packets: seq<seq<octet>>, ghost origins: seq<seq<nat>>)
      requires Valid()
      modifies this`frameSize, this`receivingFrame, this`escapePending, this`frameDiscarded, this`sources, frameBuffer
      ensures Valid()
      ensures packets == Packets(old(Model()), chunk) && Model() == Run(old(Model()), chunk)
      ensures ReadUnder(packets, origins, epoch)
    {
      packets, origins := [], [];
      ghost var start := Model();
      for index := 0 to |chunk|
        invariant Valid() && ReadUnder(packets, origins, epoch)
        invariant packets == Packets(start, chunk[..index]) && Model() == Run(start, chunk[..index])
      {
        assert chunk[..index + 1][..index] == chunk[..index];
        ghost var before := Model();
        var complete := ConsumeInputByte(chunk[index]);
        if complete {
          packets, origins := packets + [frameBuffer[..frameSize]], origins + [sources];
          ResetFrameState();
        }
      }
      assert chunk[..|chunk|] == chunk;
    }
  }
}
