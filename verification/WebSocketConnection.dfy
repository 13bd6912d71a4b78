/** A WebSocket connection (WebSocketConnection.h): reassembly of frames from arbitrary reads,
  * dispatch, a write queue drained by partial sends, and the close handshake.
  *
  * recv and send become parameters: the chunks a readable event delivers and how it ends, and the
  * results of successive send calls.  A callback may call back into the connection: `script` lists
  * the API calls each successive callback makes.
  */
module WebSocketConnections {
  import opened Sequences
  import opened Bytes
  import opened Streams
  import opened WebSocketFrames

  datatype WsState = OPEN | CLOSING | CLOSED

  type Code = x: int | 0 <= x < 65536

  datatype Event = OnMessage(payload: seq<Byte>, opcode: Opcode) | OnClose(code: Code, reason: seq<Byte>)

  datatype Api = SendText(text: seq<Byte>) | SendBinary(data: seq<Byte>) | SendPing(ping: seq<Byte>)
      | DoClose(code: Code, reason: seq<Byte>)

  // send: some bytes taken, EAGAIN, or another error.
  datatype SendResult = Took(n: nat) | Again | SendError

  // ----- what the frames of a stream call for -----

  // The status code and reason of a CLOSE payload; 1005 when there is none.
  function CloseInfo(payload: seq<Byte>): (r: (Code, seq<Byte>))
  {
    if |payload| < 2 then (1005, []) else (payload[0] as int * 256 + payload[1], payload[2..])
  }

  function ClosePayload(code: Code, reason: seq<Byte>): seq<Byte>
  {
    [code / 256, code % 256] + reason
  }

  function EventOf(f: Frame): seq<Event>
  {
    if f.opcode == TEXT || f.opcode == BINARY then [OnMessage(f.payload, f.opcode)]
    else if f.opcode == CLOSE then [OnClose(CloseInfo(f.payload).0, CloseInfo(f.payload).1)]
    else []
  }

  function EventsOf(fs: seq<Frame>): seq<Event>
  {
    if fs == [] then [] else EventsOf(fs[..|fs| - 1]) + EventOf(fs[|fs| - 1])
  }

  function Payloads(fs: seq<Frame>, opcode: Opcode): seq<seq<Byte>>
  {
    if fs == [] then []
    else Payloads(fs[..|fs| - 1], opcode) + if fs[|fs| - 1].opcode == opcode then [fs[|fs| - 1].payload] else []
  }

  lemma {:induction false} PayloadsAppend(fs: seq<Frame>, f: Frame, opcode: Opcode)
    ensures Payloads(fs + [f], opcode) == Payloads(fs, opcode) + if f.opcode == opcode then [f.payload] else []
  {
    assert (fs + [f])[..|fs|] == fs;
  }

  lemma {:induction false} EventsAppend(fs: seq<Frame>, f: Frame)
    ensures EventsOf(fs + [f]) == EventsOf(fs) + EventOf(f)
  {
    assert (fs + [f])[..|fs|] == fs;
  }

  function WiresOf(fs: seq<Frame>): seq<Byte>
  {
    if fs == [] then [] else WiresOf(fs[..|fs| - 1]) + Wire(fs[|fs| - 1])
  }

  function Outgoing(opcode: Opcode, payload: seq<Byte>): Frame
  {
    Frame(true, opcode, false, NO_KEY, payload)
  }

  // ----- the callbacks, in the terms of section 5.2 of RFC 6455 -----

  // The frames that are reported: text (1), binary (2) and close (8).
  function Reported(fs: seq<Frame>): seq<Frame>
  {
    if fs == [] then []
    else
      var last := fs[|fs| - 1];
      Reported(fs[..|fs| - 1]) + if last.opcode == 1 || last.opcode == 2 || last.opcode == 8 then [last] else []
  }

  // The callback e reports frame f: a message with its own payload and opcode, or a close with the
  // status code in the first two bytes, 1005 without them, and the bytes after as the reason.
  predicate Told(e: Event, f: Frame)
  {
    && (f.opcode == 1 || f.opcode == 2 ==> e == OnMessage(f.payload, f.opcode))
    && (f.opcode == 8 && |f.payload| >= 2 ==>
          e == OnClose(256 * (f.payload[0] as int) + f.payload[1], f.payload[2..]))
    && (f.opcode == 8 && |f.payload| < 2 ==> e == OnClose(1005, []))
  }

  // One callback for each reported frame, in order, and no others.
  predicate AllTold(events: seq<Event>, fs: seq<Frame>)
  {
    |events| == |Reported(fs)| && forall i | 0 <= i < |events| :: Told(events[i], Reported(fs)[i])
  }

  lemma {:induction false} EventsMean(fs: seq<Frame>)
    ensures AllTold(EventsOf(fs), fs)
  {
    if fs != [] {
      var n := |fs| - 1;
      EventsMean(fs[..n]);
      assert forall e | e in EventOf(fs[n]) :: Told(e, fs[n]);
    }
  }

  // ----- what the connection answers -----

  // The part of the connection that answers touch: its state, the calls that the next callbacks
  // will make, and the frames queued so far.
  datatype Desk = Desk(state: WsState, script: seq<seq<Api>>, queued: seq<Frame>)

  function Queued(d: Desk, opcode: Opcode, payload: seq<Byte>): Desk
  {
    d.(queued := d.queued + [Outgoing(opcode, payload)])
  }

  function Performed(d: Desk, call: Api): Desk
  {
    match call
    case SendText(p) => Queued(d, TEXT, p)
    case SendBinary(p) => Queued(d, BINARY, p)
    case SendPing(p) => Queued(d, PING, p)
    case DoClose(code, reason) =>
      if d.state == OPEN then Queued(d.(state := CLOSING), CLOSE, ClosePayload(code, reason)) else d
  }

  function AllPerformed(d: Desk, calls: seq<Api>): Desk
  {
    if calls == [] then d else Performed(AllPerformed(d, calls[..|calls| - 1]), calls[|calls| - 1])
  }

  lemma {:induction false} AllPerformedNext(d: Desk, calls: seq<Api>, i: nat)
    requires i < |calls|
    ensures AllPerformed(d, calls[..i + 1]) == Performed(AllPerformed(d, calls[..i]), calls[i])
  {
    assert calls[..i + 1][..i] == calls[..i];
  }

  // A callback makes the calls that are next in the script.
  function CalledBack(d: Desk): Desk
  {
    if d.script == [] then d else AllPerformed(d.(script := d.script[1..]), d.script[0])
  }

  function Handled(d: Desk, f: Frame): Desk
  {
    if f.opcode == TEXT || f.opcode == BINARY then CalledBack(d)
    else if f.opcode == PING then Queued(d, PONG, f.payload)
    else if f.opcode == CLOSE then
      CalledBack(Performed(d, DoClose(CloseInfo(f.payload).0, CloseInfo(f.payload).1)).(state := CLOSED))
    else d
  }

  function AllHandled(d: Desk, fs: seq<Frame>): Desk
  {
    if fs == [] then d else Handled(AllHandled(d, fs[..|fs| - 1]), fs[|fs| - 1])
  }

  lemma {:induction false} AllHandledAppend(d: Desk, fs: seq<Frame>, f: Frame)
    ensures AllHandled(d, fs + [f]) == Handled(AllHandled(d, fs), f)
  {
    assert (fs + [f])[..|fs|] == fs;
  }

  // Dispatching the frames beyond frames0 leads from the earlier desk and events to the later.
  ghost predicate Led(frames0: seq<Frame>, desk0: Desk, events0: seq<Event>, frames: seq<Frame>, desk: Desk,
      events: seq<Event>)
  {
    && frames0 <= frames
    && desk == AllHandled(desk0, frames[|frames0|..])
    && events == events0 + EventsOf(frames[|frames0|..])
  }

  lemma {:induction false} LedNext(frames0: seq<Frame>, desk0: Desk, events0: seq<Event>, frames: seq<Frame>,
      desk: Desk, events: seq<Event>, f: Frame)
    requires Led(frames0, desk0, events0, frames, desk, events)
    ensures Led(frames0, desk0, events0, frames + [f], Handled(desk, f), events + EventOf(f))
  {
    var n := |frames0|;
    assert (frames + [f])[n..] == frames[n..] + [f];
    AllHandledAppend(desk0, frames[n..], f);
    EventsAppend(frames[n..], f);
    Assoc(events0, EventsOf(frames[n..]), EventOf(f));
  }

  // The first byte on the wire, and the payload, of what each API call queues; a close on a
  // connection that is not open queues nothing.
  lemma {:induction false} CallBytes(d: Desk, call: Api)
    ensures var d' := Performed(d, call);
            if call.DoClose? && d.state != OPEN then d' == d
            else
              && |d'.queued| == |d.queued| + 1 && d'.queued[..|d.queued|] == d.queued
              && d'.state == (if call.DoClose? then CLOSING else d.state)
              && var f := d'.queued[|d.queued|];
                 match call
                 case SendText(p) => Wire(f)[0] == 0x81 && f.payload == p
                 case SendBinary(p) => Wire(f)[0] == 0x82 && f.payload == p
                 case SendPing(p) => Wire(f)[0] == 0x89 && f.payload == p
                 case DoClose(code, reason) =>
                   && Wire(f)[0] == 0x88 && |f.payload| >= 2
                   && 256 * (f.payload[0] as int) + f.payload[1] == code && f.payload[2..] == reason
  {
    var d' := Performed(d, call);
    if d'.queued != d.queued { FirstByte(d'.queued[|d.queued|]); }
  }

  lemma {:induction false} FirstByte(f: Frame)
    ensures Wire(f)[0] == (if f.fin then 128 else 0) + f.opcode
  {
  }

  // A ping (9) is answered by a frame that starts with 0x8A and has the same payload.
  lemma {:induction false} PingAnswered(d: Desk, f: Frame)
    requires f.opcode == 9
    ensures var d' := Handled(d, f);
            && |d'.queued| == |d.queued| + 1 && d'.queued[..|d.queued|] == d.queued && d'.state == d.state
            && Wire(d'.queued[|d.queued|])[0] == 0x8A && d'.queued[|d.queued|].payload == f.payload
  {
    FirstByte(Outgoing(PONG, f.payload));
  }

  // No CLOSE was queued while open, and at most one ever.
  predicate CloseOnce(d: Desk)
  {
    |Payloads(d.queued, CLOSE)| <= if d.state == OPEN then 0 else 1
  }

  lemma {:induction false} PerformedKeeps(d: Desk, call: Api)
    requires CloseOnce(d)
    ensures var d' := Performed(d, call);
            && CloseOnce(d') && Payloads(d'.queued, PONG) == Payloads(d.queued, PONG)
            && (d.state != OPEN ==> d'.state == d.state && Payloads(d'.queued, CLOSE) == Payloads(d.queued, CLOSE))
  {
    var d' := Performed(d, call);
    if d'.queued != d.queued {
      var f := d'.queued[|d.queued|];
      PayloadsAppend(d.queued, f, PONG);
      PayloadsAppend(d.queued, f, CLOSE);
    }
  }

  lemma {:induction false} StaysValid(d: Desk, call: Api)
    ensures CloseOnce(d) ==> CloseOnce(Performed(d, call))
    ensures Payloads(Performed(d, call).queued, PONG) == Payloads(d.queued, PONG)
  {
    if CloseOnce(d) { PerformedKeeps(d, call); }
    var d' := Performed(d, call);
    if d'.queued != d.queued { PayloadsAppend(d.queued, d'.queued[|d.queued|], PONG); }
  }

  lemma {:induction false} AllPerformedKeeps(d: Desk, calls: seq<Api>)
    requires CloseOnce(d)
    ensures var d' := AllPerformed(d, calls);
            && CloseOnce(d') && Payloads(d'.queued, PONG) == Payloads(d.queued, PONG)
            && (d.state != OPEN ==> d'.state == d.state && Payloads(d'.queued, CLOSE) == Payloads(d.queued, CLOSE))
  {
    if calls != [] {
      AllPerformedKeeps(d, calls[..|calls| - 1]);
      PerformedKeeps(AllPerformed(d, calls[..|calls| - 1]), calls[|calls| - 1]);
    }
  }

  lemma {:induction false} CalledBackKeeps(d: Desk)
    requires CloseOnce(d)
    ensures var d' := CalledBack(d);
            && CloseOnce(d') && Payloads(d'.queued, PONG) == Payloads(d.queued, PONG)
            && (d.state != OPEN ==> d'.state == d.state && Payloads(d'.queued, CLOSE) == Payloads(d.queued, CLOSE))
  {
    if d.script != [] { AllPerformedKeeps(d.(script := d.script[1..]), d.script[0]); }
  }

  // A peer's CLOSE ends the connection; it is echoed iff the connection was open.
  lemma {:induction false} CloseHandled(d: Desk, f: Frame)
    requires CloseOnce(d) && f.opcode == CLOSE
    ensures var d', info := Handled(d, f), CloseInfo(f.payload);
            && CloseOnce(d') && d'.state == CLOSED && Payloads(d'.queued, PONG) == Payloads(d.queued, PONG)
            && Payloads(d'.queued, CLOSE) ==
               if d.state == OPEN then [ClosePayload(info.0, info.1)] else Payloads(d.queued, CLOSE)
  {
    var info := CloseInfo(f.payload);
    var d1 := Performed(d, DoClose(info.0, info.1));
    PerformedKeeps(d, DoClose(info.0, info.1));
    if d.state == OPEN { PayloadsAppend(d.queued, Outgoing(CLOSE, ClosePayload(info.0, info.1)), CLOSE); }
    CalledBackKeeps(d1.(state := CLOSED));
  }

  // On an open connection the answer to a peer's CLOSE (8) has its payload, or, if that has no
  // status code, the two bytes of 1005.
  lemma {:induction false} CloseEchoed(d: Desk, f: Frame)
    requires CloseOnce(d) && d.state == OPEN && f.opcode == 8
    ensures Payloads(Handled(d, f).queued, 8) == [if |f.payload| >= 2 then f.payload else [0x03, 0xED]]
  {
    CloseHandled(d, f);
    EchoRepeatsIff(f.payload);
    NoStatus();
  }

  lemma {:induction false} NoStatus()
    ensures ClosePayload(1005, []) == [0x03, 0xED]
  {
  }

  // Whatever the callbacks do: each PING is answered by one PONG with its payload, in order, at
  // most one CLOSE is ever queued, and the connection is never reopened.
  lemma {:induction false} HandledKeeps(d: Desk, f: Frame)
    requires CloseOnce(d)
    ensures var d' := Handled(d, f);
            && CloseOnce(d') && (d'.state == OPEN ==> d.state == OPEN)
            && Payloads(d'.queued, PONG) == Payloads(d.queued, PONG) + if f.opcode == PING then [f.payload] else []
  {
    if f.opcode == CLOSE {
      CloseHandled(d, f);
    } else if f.opcode == PING {
      PayloadsAppend(d.queued, Outgoing(PONG, f.payload), PONG);
      PayloadsAppend(d.queued, Outgoing(PONG, f.payload), CLOSE);
    } else {
      CalledBackKeeps(d);
    }
  }

  // One PONG per PING dispatched, with its payload, and at most one CLOSE.
  predicate Balanced(d: Desk, frames: seq<Frame>)
  {
    CloseOnce(d) && Payloads(d.queued, PONG) == Payloads(frames, PING)
  }

  lemma {:induction false} ClosedBalanced(d: Desk, frames: seq<Frame>)
    requires Balanced(d, frames)
    ensures Balanced(d.(state := CLOSED), frames)
  {
  }

  lemma {:induction false} BalancedNext(d: Desk, frames: seq<Frame>, f: Frame)
    requires Balanced(d, frames)
    ensures Balanced(Handled(d, f), frames + [f])
  {
    HandledKeeps(d, f);
    PayloadsAppend(frames, f, PING);
  }

  lemma {:induction false} AllHandledKeeps(d: Desk, fs: seq<Frame>)
    requires CloseOnce(d)
    ensures var d' := AllHandled(d, fs);
            && CloseOnce(d') && (d'.state == OPEN ==> d.state == OPEN)
            && Payloads(d'.queued, PONG) == Payloads(d.queued, PONG) + Payloads(fs, PING)
  {
    if fs != [] {
      var n := |fs| - 1;
      AllHandledKeeps(d, fs[..n]);
      HandledKeeps(AllHandled(d, fs[..n]), fs[n]);
    }
  }

  // ----- the write queue -----

  // What of the write queue has not been sent.
  ghost function Unsent(queue: seq<seq<Byte>>, offset: nat): seq<Byte>
  {
    if offset <= |Concat(queue)| then Concat(queue)[offset..] else []
  }

  // Sent bytes, then the unsent rest, are all the bytes; the offset lies within the front entry.
  ghost predicate Accounted(queue: seq<seq<Byte>>, offset: nat, sent: seq<Byte>, all: seq<Byte>)
  {
    Stocked(queue, offset) && sent + Unsent(queue, offset) == all
  }

  // The offset lies within the front entry, and no entry is empty.
  ghost predicate Stocked(queue: seq<seq<Byte>>, offset: nat)
  {
    (if queue == [] then offset == 0 else offset < |queue[0]|) && NoEmpty(queue)
  }

  ghost predicate NoEmpty(queue: seq<seq<Byte>>)
  {
    queue == [] || (queue[0] != [] && NoEmpty(queue[1..]))
  }

  lemma {:induction false} NoEmptyAppend(queue: seq<seq<Byte>>, out: seq<Byte>)
    requires NoEmpty(queue) && out != []
    ensures NoEmpty(queue + [out])
  {
    if queue == [] {
      assert (queue + [out])[1..] == [];
    } else {
      assert (queue + [out])[1..] == queue[1..] + [out];
      NoEmptyAppend(queue[1..], out);
    }
  }

  lemma {:induction false} UnsentTake(queue: seq<seq<Byte>>, offset: nat, took: nat)
    requires Stocked(queue, offset) && queue != [] && offset + took <= |queue[0]|
    ensures var left := Shifted(queue, offset + took);
            && Stocked(left.0, left.1)
            && Unsent(queue, offset) == queue[0][offset..offset + took] + Unsent(left.0, left.1)
  {
    assert Concat(queue) == queue[0] + Concat(queue[1..]);
    DropConcat(queue[0], Concat(queue[1..]), offset, offset + took);
    if offset + took == |queue[0]| {
      assert NoEmpty(queue[1..]);
      assert Concat(queue)[|queue[0]|..] == Concat(queue[1..]) == Concat(queue[1..])[0..];
    }
  }

  lemma {:induction false} DropConcat(a: seq<Byte>, b: seq<Byte>, i: nat, j: nat)
    requires i <= j <= |a|
    ensures (a + b)[i..] == a[i..j] + (a + b)[j..]
  {
  }

  lemma {:induction false} UnsentAppend(queue: seq<seq<Byte>>, offset: nat, out: seq<Byte>)
    requires offset <= |Concat(queue)|
    ensures Unsent(queue + [out], offset) == Unsent(queue, offset) + out
  {
    ConcatAppend(queue, out);
    assert (Concat(queue) + out)[offset..] == Concat(queue)[offset..] + out;
  }

  lemma {:induction false} AccountedAppend(queue: seq<seq<Byte>>, offset: nat, sent: seq<Byte>, all: seq<Byte>,
      out: seq<Byte>)
    requires Accounted(queue, offset, sent, all) && out != []
    ensures Accounted(queue + [out], offset, sent, all + out)
  {
    UnsentAppend(queue, offset, out);
    NoEmptyAppend(queue, out);
    Assoc(sent, Unsent(queue, offset), out);
  }

  // The queue and offset after o bytes of the front entry have gone.
  function Shifted(queue: seq<seq<Byte>>, o: nat): (seq<seq<Byte>>, nat)
    requires queue != []
  {
    if o >= |queue[0]| then (queue[1..], 0) else (queue, o)
  }

  lemma {:induction false} AccountedTake(queue: seq<seq<Byte>>, offset: nat, sent: seq<Byte>, all: seq<Byte>, took: nat)
    requires Accounted(queue, offset, sent, all) && queue != [] && offset + took <= |queue[0]|
    ensures var left := Shifted(queue, offset + took);
            Accounted(left.0, left.1, sent + queue[0][offset..offset + took], all)
  {
    var left := Shifted(queue, offset + took);
    UnsentTake(queue, offset, took);
    Assoc(sent, queue[0][offset..offset + took], Unsent(left.0, left.1));
  }

  // How many bytes the results of successive sends take, and whether an error ends them.
  function Flushed(queue: seq<seq<Byte>>, offset: nat, results: seq<SendResult>): (r: (nat, bool))
    requires queue != [] ==> offset <= |queue[0]|
    decreases |results|
  {
    if queue == [] || results == [] || results[0].Again? then (0, false)
    else if results[0].SendError? then (0, true)
    else
      var took := Offered(queue[0], offset, results[0].n);
      var left := Shifted(queue, offset + took);
      var (more, err) := Flushed(left.0, left.1, results[1..]);
      (took + more, err)
  }

  // The whole is what has been sent so far, then the rest.
  predicate Continued(whole: (nat, bool), rest: (nat, bool), sofar: int)
  {
    whole.0 == sofar + rest.0 && whole.1 == rest.1
  }

  lemma {:induction false} ContinuedTwice(whole: (nat, bool), more: (nat, bool), rest: (nat, bool), sofar: int,
      took: int)
    requires Continued(whole, more, sofar) && Continued(more, rest, took)
    ensures Continued(whole, rest, sofar + took)
  {
  }

  lemma {:induction false} FlushedStep(queue: seq<seq<Byte>>, offset: nat, results: seq<SendResult>, i: nat)
    requires queue != [] && offset <= |queue[0]| && i < |results|
    ensures var r, whole := results[i], Flushed(queue, offset, results[i..]);
            && (r.Again? ==> whole == (0, false)) && (r.SendError? ==> whole == (0, true))
            && (r.Took? ==>
                  var took := Offered(queue[0], offset, r.n);
                  var left := Shifted(queue, offset + took);
                  Continued(whole, Flushed(left.0, left.1, results[i + 1..]), took))
  {
    assert results[i..][0] == results[i] && results[i..][1..] == results[i + 1..];
  }

  // send takes at most what it is given.
  function Offered(data: seq<Byte>, offset: nat, n: nat): (took: nat)
    requires offset <= |data|
    ensures took <= n && offset + took <= |data|
  {
    if n <= |data| - offset then n else |data| - offset
  }

  predicate Eager(results: seq<SendResult>)
  {
    results == [] || (results[0].Took? && results[0].n > 0 && Eager(results[1..]))
  }

  // A socket that takes at least a byte each time is done after as many sends as there are bytes.
  lemma {:induction false} FlushesAll(queue: seq<seq<Byte>>, offset: nat, results: seq<SendResult>)
    requires Stocked(queue, offset) && |results| >= |Unsent(queue, offset)|
    requires Eager(results)
    ensures Flushed(queue, offset, results) == (|Unsent(queue, offset)|, false)
    decreases |results|
  {
    if queue != [] {
      var took := Offered(queue[0], offset, results[0].n);
      var left := Shifted(queue, offset + took);
      UnsentTake(queue, offset, took);
      FlushesAll(left.0, left.1, results[1..]);
    }
  }

  // Echoing a peer's CLOSE repeats its payload exactly when it carries a status code; an empty
  // CLOSE is answered with the reserved code 1005.
  lemma {:induction false} EchoRepeatsIff(payload: seq<Byte>)
    ensures ClosePayload(CloseInfo(payload).0, CloseInfo(payload).1) == payload <==> |payload| >= 2
  {
    if |payload| >= 2 {
      var code: int := payload[0] as int * 256 + payload[1];
      assert code / 256 == payload[0] && code % 256 == payload[1];
      assert payload == [payload[0], payload[1]] + payload[2..];
    }
  }

  class WsConnection {
    var state: WsState
    var readBuffer: seq<Byte>
    var writeQueue: seq<seq<Byte>>
    var writeOffset: nat
    var events: seq<Event>       // callbacks made so far
    var script: seq<seq<Api>>    // what the next callbacks will do
    ghost const cut: Cutter<Byte, Frame>  // what Parse computes
    ghost var received: seq<Byte>  // everything recv returned
    ghost var frames: seq<Frame>   // frames dispatched
    ghost var queued: seq<Frame>   // frames queued for writing
    ghost var sent: seq<Byte>      // everything send took

    // The dispatched frames are a greedy decoding of the stream; the rest of it is that of the buffer.
    ghost predicate ReadOk()
      reads this`received, this`frames, this`readBuffer
    {
      && Framing(cut)
      && (forall s {:trigger Parsed(s)} :: cut(s) == Parsed(s))
      && Reassembled(cut, received, frames, readBuffer)
    }

    ghost predicate WriteOk()
      reads this`writeQueue, this`writeOffset, this`queued, this`sent
    {
      Accounted(writeQueue, writeOffset, sent, WiresOf(queued))
    }

    ghost predicate Valid()
      reads this
    {
      ReadOk() && Answered()
    }

    ghost function Answers(): Desk
      reads this`state, this`script, this`queued
    {
      Desk(state, script, queued)
    }

    constructor (script: seq<seq<Api>>)
      ensures cut == Parsed && this.script == script && events == [] && readBuffer == []
      ensures Valid() && state == OPEN && received == [] && frames == [] && queued == [] && sent == []
    {
      this.script, cut := script, Parsed;
      state, readBuffer, writeQueue, writeOffset, events := OPEN, [], [], 0, [];
      received, frames, queued, sent := [], [], [], [];
      new;
      ParsedFraming();
      ReassembledStart(cut);
    }

    // ----- writing -----

    method QueueFrame(f: Frame)
      requires WriteOk()
      modifies this`writeQueue, this`queued
      ensures WriteOk() && queued == old(queued) + [f]
    {
      var out := Serialize(f);
      AccountedAppend(writeQueue, writeOffset, sent, WiresOf(queued), out);
      assert (queued + [f])[..|queued|] == queued;
      writeQueue := writeQueue + [out];
      queued := queued + [f];
    }

    // OnWritable: sends until the queue is empty, the socket is full, or an error.
    method OnWritable(results: seq<SendResult>)
      requires Valid()
      modifies this`writeQueue, this`writeOffset, this`sent, this`state
      ensures Valid() && sent <= WiresOf(queued)
      ensures var flushed := Flushed(old(writeQueue), old(writeOffset), results);
              |sent| == |old(sent)| + flushed.0 && state == if flushed.1 then CLOSED else old(state)
    {
      var failed := FlushQueue(results);
      if failed {
        MarkClosed();
      }
    }

    method FlushQueue(results: seq<SendResult>) returns (failed: bool)
      requires Answered()
      modifies this`writeQueue, this`writeOffset, this`sent
      ensures Answered() && (|sent| - |old(sent)|, failed) == Flushed(old(writeQueue), old(writeOffset), results)
    {
      writeQueue, writeOffset, failed, sent := Flush(writeQueue, writeOffset, results, sent, WiresOf(queued));
    }

    method MarkClosed()
      requires Answered()
      modifies this`state
      ensures Answered() && state == CLOSED
    {
      ClosedBalanced(Answers(), frames);
      state := CLOSED;
    }

    // The send loop.
    static method Flush(queue: seq<seq<Byte>>, offset: nat, results: seq<SendResult>, ghost sent: seq<Byte>,
        ghost all: seq<Byte>)
      returns (queue': seq<seq<Byte>>, offset': nat, failed: bool, ghost sent': seq<Byte>)
      requires Accounted(queue, offset, sent, all)
      ensures Accounted(queue', offset', sent', all)
      ensures (|sent'| - |sent|, failed) == Flushed(queue, offset, results)
    {
      queue', offset', sent', failed := queue, offset, sent, false;
      var i := 0;
      assert results[0..] == results;
      while queue' != [] && i < |results|
        invariant i <= |results| && Accounted(queue', offset', sent', all)
        invariant Continued(Flushed(queue, offset, results), Flushed(queue', offset', results[i..]), |sent'| - |sent|)
        decreases |results| - i
      {
        FlushedStep(queue', offset', results, i);
        ghost var sofar, more, was := |sent'| - |sent|, Flushed(queue', offset', results[i..]), |sent'|;
        if results[i].Again? {
          return;
        }
        if results[i].SendError? {
          failed := true;
          return;
        }
        queue', offset', sent' := SendFront(queue', offset', results, i, sent', all);
        i := i + 1;
        ContinuedTwice(Flushed(queue, offset, results), more, Flushed(queue', offset', results[i..]), sofar,
          |sent'| - was);
      }
    }

    // One successful send from the front entry.
    static method SendFront(queue: seq<seq<Byte>>, offset: nat, results: seq<SendResult>, i: nat,
        ghost sent: seq<Byte>, ghost all: seq<Byte>)
      returns (queue': seq<seq<Byte>>, offset': nat, ghost sent': seq<Byte>)
      requires Accounted(queue, offset, sent, all) && queue != [] && i < |results| && results[i].Took?
      ensures Accounted(queue', offset', sent', all) && |sent| <= |sent'|
      ensures Continued(Flushed(queue, offset, results[i..]), Flushed(queue', offset', results[i + 1..]),
              |sent'| - |sent|)
    {
      var took := Offered(queue[0], offset, results[i].n);
      FlushedStep(queue, offset, results, i);
      queue', offset', sent' := TakeFront(queue, offset, took, sent, all);
    }

    static method TakeFront(queue: seq<seq<Byte>>, offset: nat, took: nat, ghost sent: seq<Byte>, ghost all: seq<Byte>)
      returns (queue': seq<seq<Byte>>, offset': nat, ghost sent': seq<Byte>)
      requires Accounted(queue, offset, sent, all) && queue != [] && offset + took <= |queue[0]|
      ensures queue' == Shifted(queue, offset + took).0 && offset' == Shifted(queue, offset + took).1
      ensures Accounted(queue', offset', sent', all) && |sent'| == |sent| + took
    {
      AccountedTake(queue, offset, sent, all, took);
      sent' := sent + queue[0][offset..offset + took];
      var left := Shifted(queue, offset + took);
      queue', offset' := left.0, left.1;
    }

    // ----- the sending API -----

    method Send(opcode: Opcode, payload: seq<Byte>)
      requires WriteOk()
      modifies this`writeQueue, this`queued
      ensures WriteOk() && Answers() == Queued(old(Answers()), opcode, payload)
      ensures old(Valid()) && opcode != PONG && opcode != CLOSE ==> Valid()
    {
      PayloadsAppend(queued, Outgoing(opcode, payload), PONG);
      PayloadsAppend(queued, Outgoing(opcode, payload), CLOSE);
      QueueFrame(Outgoing(opcode, payload));
    }

    method Close(code: Code, reason: seq<Byte>)
      requires WriteOk()
      modifies this`state, this`writeQueue, this`queued
      ensures WriteOk() && Answers() == Performed(old(Answers()), DoClose(code, reason))
      ensures old(Valid()) ==> Valid()
    {
      StaysValid(Answers(), DoClose(code, reason));
      if state == OPEN {
        SendClose(code, reason);
      }
    }

    method SendClose(code: Code, reason: seq<Byte>)
      requires WriteOk()
      modifies this`state, this`writeQueue, this`queued
      ensures WriteOk() && Answers() == Queued(old(Answers()).(state := CLOSING), CLOSE, ClosePayload(code, reason))
    {
      state := CLOSING;
      QueueFrame(Outgoing(CLOSE, ClosePayload(code, reason)));
    }

    method Call(call: Api)
      requires WriteOk()
      modifies this`state, this`writeQueue, this`queued
      ensures WriteOk() && Answers() == Performed(old(Answers()), call)
      ensures old(Valid()) ==> Valid()
      ensures state == OPEN ==> old(state) == OPEN
    {
      StaysValid(Answers(), call);
      match call {
        case SendText(p) => Send(TEXT, p);
        case SendBinary(p) => Send(BINARY, p);
        case SendPing(p) => Send(PING, p);
        case DoClose(code, reason) => Close(code, reason);
      }
    }

    // The calls of one callback, in order.
    method Perform(calls: seq<Api>)
      requires WriteOk()
      modifies this`state, this`writeQueue, this`queued
      ensures WriteOk() && Answers() == AllPerformed(old(Answers()), calls)
    {
      for i := 0 to |calls|
        invariant WriteOk() && Answers() == AllPerformed(old(Answers()), calls[..i])
      {
        AllPerformedNext(old(Answers()), calls, i);
        Call(calls[i]);
      }
      assert calls[..|calls|] == calls;
    }

    // A callback: recorded, then free to use the sending API.
    method Callback(e: Event)
      requires WriteOk()
      modifies this`state, this`writeQueue, this`queued, this`events, this`script
      ensures WriteOk() && Answers() == CalledBack(old(Answers())) && events == old(events) + [e]
    {
      events := events + [e];
      if script != [] {
        var calls := script[0];
        script := script[1..];
        Perform(calls);
      }
    }

    // ----- reading -----

    // A peer's CLOSE is echoed if the connection was open, and ends it.
    method PeerClose(f: Frame)
      requires WriteOk() && f.opcode == CLOSE
      modifies this`state, this`writeQueue, this`queued, this`events, this`script
      ensures WriteOk() && Answers() == Handled(old(Answers()), f) && events == old(events) + EventOf(f)
    {
      var info := CloseInfo(f.payload);
      CloseIfOpen(info.0, info.1);
      Callback(OnClose(info.0, info.1));
    }

    method CloseIfOpen(code: Code, reason: seq<Byte>)
      requires WriteOk()
      modifies this`state, this`writeQueue, this`queued
      ensures WriteOk() && Answers() == Performed(old(Answers()), DoClose(code, reason)).(state := CLOSED)
    {
      if state == OPEN {
        SendClose(code, reason);
      }
      state := CLOSED;
    }

    // The switch over one frame's opcode.
    method Dispatch(f: Frame)
      requires WriteOk()
      modifies this`state, this`writeQueue, this`queued, this`events, this`script
      ensures WriteOk() && Answers() == Handled(old(Answers()), f) && events == old(events) + EventOf(f)
    {
      if f.opcode == TEXT || f.opcode == BINARY {
        Callback(OnMessage(f.payload, f.opcode));
      } else if f.opcode == PING {
        Send(PONG, f.payload);
      } else if f.opcode == CLOSE {
        PeerClose(f);
      }
    }

    // Since an earlier moment, the new frames have been dispatched and nothing else has happened.
    ghost predicate Since(frames0: seq<Frame>, desk0: Desk, events0: seq<Event>)
      reads this`frames, this`state, this`script, this`queued, this`events
    {
      Led(frames0, desk0, events0, frames, Answers(), events)
    }

    // What holds between frames, the buffer aside.
    ghost predicate Answered()
      reads this`writeQueue, this`writeOffset, this`queued, this`sent, this`state, this`script, this`frames, this`events
    {
      WriteOk() && Balanced(Answers(), frames) && events == EventsOf(frames)
    }

    method Absorb(f: Frame, ghost frames0: seq<Frame>, ghost desk0: Desk, ghost events0: seq<Event>)
      requires Answered() && Since(frames0, desk0, events0)
      modifies this`state, this`writeQueue, this`queued, this`events, this`script, this`frames
      ensures Answered() && Since(frames0, desk0, events0) && frames == old(frames) + [f]
    {
      BalancedNext(Answers(), frames, f);
      EventsAppend(frames, f);
      LedNext(frames0, desk0, events0, frames, Answers(), events, f);
      Dispatch(f);
      frames := frames + [f];
    }

    method DropFront(size: nat)
      requires Framing(cut) && (forall s {:trigger Parsed(s)} :: cut(s) == Parsed(s))
      requires 0 < size <= |readBuffer| && Reassembled(cut, received, frames, readBuffer[size..])
      modifies this`readBuffer
      ensures ReadOk() && |readBuffer| < old(|readBuffer|)
    {
      readBuffer := readBuffer[size..];
    }

    // One round of the parse loop.
    method TakeFrame(ghost frames0: seq<Frame>, ghost desk0: Desk, ghost events0: seq<Event>)
        returns (taken: bool, threw: bool)
      requires Valid() && Since(frames0, desk0, events0)
      modifies this`state, this`writeQueue, this`queued, this`events, this`script, this`frames, this`readBuffer
      ensures Valid() && Since(frames0, desk0, events0)
      ensures taken ==> |readBuffer| < old(|readBuffer|)
      ensures !taken ==> readBuffer == old(readBuffer) && !cut(readBuffer).Item? && (threw <==> cut(readBuffer).Fail?)
    {
      var r := Parse(readBuffer);
      assert cut(readBuffer) == r;
      taken, threw := r.Item?, r.Fail?;
      if taken {
        ReassembledTake(cut, received, frames, readBuffer);
        Absorb(r.value, frames0, desk0, events0);
        DropFront(r.size);
      }
    }

    // The parse loop of OnReadable; an exception of Parse ends it.
    method DrainBuffer() returns (threw: bool)
      requires Valid()
      modifies this`state, this`writeQueue, this`queued, this`events, this`script, this`frames, this`readBuffer
      ensures Valid() && Since(old(frames), old(Answers()), old(events)) && (state == OPEN ==> old(state) == OPEN)
      ensures Decode(cut, received) == Decoded(frames, readBuffer)
      ensures threw <==> cut(readBuffer).Fail?
    {
      threw := false;
      var taken := true;
      assert Since(frames, Answers(), events);
      while readBuffer != [] && taken
        invariant Valid() && Since(old(frames), old(Answers()), old(events))
        invariant taken ==> !threw
        invariant !taken ==> !cut(readBuffer).Item? && (threw <==> cut(readBuffer).Fail?)
        decreases |readBuffer|, taken
      {
        taken, threw := TakeFrame(old(frames), old(Answers()), old(events));
        if taken { threw := false; }
      }
      if taken {
        assert readBuffer == [];
        EmptyMore();
      }
      ReassembledDone(cut, received, frames, readBuffer);
      AllHandledKeeps(old(Answers()), frames[|old(frames)|..]);
    }

    lemma {:induction false} EmptyMore()
      requires ReadOk()
      ensures cut([]).More?
    {
      assert cut([]) == Parsed([]);
    }

    method Receive(chunks: seq<seq<Byte>>)
      requires ReadOk()
      modifies this`readBuffer, this`received
      ensures ReadOk() && received == old(received) + Concat(chunks) && readBuffer == old(readBuffer) + Concat(chunks)
    {
      ReassembledMore(cut, received, frames, readBuffer, Concat(chunks));
      readBuffer := Gather(readBuffer, chunks);
      received := received + Concat(chunks);
    }

    // A read that ends the connection, or fails, leaves the buffer undispatched.
    method ReadToEnd(chunks: seq<seq<Byte>>, end: ReadEnd)
      requires Valid()
      modifies this`state, this`readBuffer, this`received
      ensures Valid() && received == old(received) + Concat(chunks) && readBuffer == old(readBuffer) + Concat(chunks)
      ensures state == if end == PeerClosed then CLOSED else old(state)
    {
      Receive(chunks);
      EndRead(end);
    }

    method EndRead(end: ReadEnd)
      requires Answered()
      modifies this`state
      ensures Answered() && state == if end == PeerClosed then CLOSED else old(state)
    {
      if end == PeerClosed {
        MarkClosed();
      }
    }

    // OnReadable: append what recv delivers, then, unless the read ended the connection, dispatch
    // every complete frame.
    method OnReadable(chunks: seq<seq<Byte>>, end: ReadEnd) returns (threw: bool)
      requires Valid()
      modifies this`state, this`writeQueue, this`queued, this`events, this`script, this`frames, this`readBuffer,
        this`received
      ensures Valid() && received == old(received) + Concat(chunks)
      ensures state == OPEN ==> old(state) == OPEN
      ensures end == WouldBlock ==>
                && Decode(cut, received) == Decoded(frames, readBuffer) && (threw <==> cut(readBuffer).Fail?)
                && Since(old(frames), old(Answers()), old(events))
      ensures end != WouldBlock ==>
                && frames == old(frames) && events == old(events) && !threw
                && Answers() == old(Answers()).(state := if end == PeerClosed then CLOSED else old(state))
                && readBuffer == old(readBuffer) + Concat(chunks)
    {
      if end == WouldBlock {
        threw := ReadAndDispatch(chunks);
      } else {
        threw := false;
        ReadToEnd(chunks, end);
      }
    }

    method ReadAndDispatch(chunks: seq<seq<Byte>>) returns (threw: bool)
      requires Valid()
      modifies this`state, this`writeQueue, this`queued, this`events, this`script, this`frames, this`readBuffer,
        this`received
      ensures Valid() && received == old(received) + Concat(chunks) && (state == OPEN ==> old(state) == OPEN)
      ensures Decode(cut, received) == Decoded(frames, readBuffer) && (threw <==> cut(readBuffer).Fail?)
      ensures Since(old(frames), old(Answers()), old(events))
    {
      Receive(chunks);
      threw := DrainBuffer();
    }
  }

  // ----- whole sessions -----

  datatype Happening = Readable(chunks: seq<seq<Byte>>, end: ReadEnd) | Writable(results: seq<SendResult>)
      | Called(call: Api)

  // The bytes a session receives.
  ghost function Arrived(hs: seq<Happening>): seq<Byte>
  {
    if hs == [] then []
    else Arrived(hs[..|hs| - 1]) + if hs[|hs| - 1].Readable? then Concat(hs[|hs| - 1].chunks) else []
  }

  // Over any mix of readable, writable and API events, with any callbacks: the bytes sent are the
  // beginning of the queued frames, PONGs answer PINGs one to one in order, at most one CLOSE is
  // ever queued and none while the connection is open, and the dispatched frames are a greedy
  // decoding of the bytes received.
  method RunSession(script: seq<seq<Api>>, hs: seq<Happening>) returns (c: WsConnection)
    ensures fresh(c) && c.Valid() && c.received == Arrived(hs)
    ensures c.sent <= WiresOf(c.queued)
    ensures Payloads(c.queued, PONG) == Payloads(c.frames, PING)
    ensures |Payloads(c.queued, CLOSE)| <= 1 && (c.state == OPEN ==> Payloads(c.queued, CLOSE) == [])
    ensures Reassembled(c.cut, Arrived(hs), c.frames, c.readBuffer) && AllTold(c.events, c.frames)
  {
    c := RunEvents(script, hs);
    EventsMean(c.frames);
  }

  method RunEvents(script: seq<seq<Api>>, hs: seq<Happening>) returns (c: WsConnection)
    ensures fresh(c) && c.Valid() && c.received == Arrived(hs)
  {
    c := new WsConnection(script);
    for i := 0 to |hs|
      invariant fresh(c) && c.Valid() && c.received == Arrived(hs[..i])
    {
      assert hs[..i + 1][..i] == hs[..i];
      Happen(c, hs[i]);
    }
    assert hs[..|hs|] == hs;
  }

  method Happen(c: WsConnection, h: Happening)
    requires c.Valid()
    modifies c
    ensures c.Valid()
    ensures c.received == old(c.received) + if h.Readable? then Concat(h.chunks) else []
    ensures c.state == OPEN ==> old(c.state) == OPEN
  {
    if h.Readable? {
      var threw := c.OnReadable(h.chunks, h.end);
    } else {
      NotRead(c, h);
    }
  }

  method NotRead(c: WsConnection, h: Happening)
    requires c.Valid() && !h.Readable?
    modifies c`state, c`writeQueue, c`writeOffset, c`queued, c`sent
    ensures c.Valid() && (c.state == OPEN ==> old(c.state) == OPEN)
  {
    if h.Writable? {
      c.OnWritable(h.results);
    } else {
      c.Call(h.call);
    }
  }

  // A fresh connection that receives the encoding of frames, cut into reads and chunks in any way,
  // dispatches these frames, is told of each as above, and keeps nothing back.
  method Listen(script: seq<seq<Api>>, fs: seq<Frame>, inputs: seq<seq<seq<Byte>>>) returns (c: WsConnection)
    requires forall f | f in fs :: |f.payload| <= MAX_SIZE && (!f.masked ==> f.key == NO_KEY)
    requires Arrived(Readables(inputs)) == EncodeAll(Encoded, fs)
    ensures fresh(c) && c.frames == fs && AllTold(c.events, fs) && c.readBuffer == []
  {
    c := new WsConnection(script);
    EmptyDecoded(c);
    for i := 0 to |inputs|
      invariant fresh(c) && c.Valid() && c.received == Arrived(Readables(inputs[..i]))
      invariant Decode(c.cut, c.received) == Decoded(c.frames, c.readBuffer)
    {
      ReadablesNext(inputs, i);
      var threw := c.OnReadable(inputs[i], WouldBlock);
    }
    assert inputs[..|inputs|] == inputs;
    Heard(c, fs);
    EventsMean(fs);
  }

  function Readables(inputs: seq<seq<seq<Byte>>>): seq<Happening>
  {
    seq(|inputs|, i requires 0 <= i < |inputs| => Readable(inputs[i], WouldBlock))
  }

  lemma {:induction false} ReadablesNext(inputs: seq<seq<seq<Byte>>>, i: nat)
    requires i < |inputs|
    ensures Arrived(Readables(inputs[..i + 1])) == Arrived(Readables(inputs[..i])) + Concat(inputs[i])
  {
    assert Readables(inputs[..i + 1]) == Readables(inputs[..i]) + [Readable(inputs[i], WouldBlock)];
    assert Readables(inputs[..i + 1])[..i] == Readables(inputs[..i]);
  }

  lemma {:induction false} EmptyDecoded(c: WsConnection)
    requires c.Valid() && c.received == [] && c.frames == [] && c.readBuffer == []
    ensures Decode(c.cut, c.received) == Decoded(c.frames, c.readBuffer)
  {
    assert c.cut([]) == Parsed([]);
  }

  lemma {:induction false} Heard(c: WsConnection, fs: seq<Frame>)
    requires forall f | f in fs :: |f.payload| <= MAX_SIZE && (!f.masked ==> f.key == NO_KEY)
    requires c.Valid() && c.received == EncodeAll(Encoded, fs)
    requires Decode(c.cut, c.received) == Decoded(c.frames, c.readBuffer)
    ensures c.frames == fs && c.readBuffer == []
  {
    SameDecode(c.cut, c.received);
    DecodeFrames(fs, []);
    assert EncodeAll(Encoded, fs) + [] == EncodeAll(Encoded, fs);
    assert Decode(Parsed, []) == Decoded([], []);
    assert fs + [] == fs;
  }

  lemma {:induction false} SameDecode(p: Cutter<Byte, Frame>, s: seq<Byte>)
    requires forall t {:trigger Parsed(t)} :: p(t) == Parsed(t)
    ensures Decode(p, s) == Decode(Parsed, s)
    decreases |s|
  {
    assert p(s) == Parsed(s);
    if p(s).Item? && 0 < p(s).size <= |s| { SameDecode(p, s[p(s).size..]); }
  }
}
