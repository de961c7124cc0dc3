/** Sending on a non-blocking socket under a deadline and a stop flag
    (src/tcp_send.cpp), and a frame as header and payload (send_frame_over_tcp in src/main.cpp).
    What the kernel and the clock answer is an input: one SendTick per turn of the loop. */
module TcpSend {
  import opened Options
  import opened Bytes
  import opened Crc32
  import opened FrameProtocol
  import opened Frames

  const INT_MAX: int := 0x7FFF_FFFF

  datatype SendResult = Sent(n: nat) | Interrupted | WouldBlock | SendFailed
  datatype PollResult = PollInterrupted | PollFailed | PollTimeout | PollInvalid | PollHangup | PollWritable

  /** One turn: the stop flag and the clock before send, its result, and the same again before poll. */
  datatype SendTick = SendTick(
    stopBefore: bool, nowBefore: int, result: SendResult,
    stopAfter: bool, nowAfter: int, poll: PollResult)

  datatype SendOutcome = SendOk | SendTimeout | SendCancelled | SendError | SendInvalidArgument | SendPending

  /** remaining_wait_ms with the clock reading as a parameter; times in nanoseconds. */
  function RemainingWaitMs(deadlineNs: int, nowNs: int, pollSliceMs: int): (ms: int)
    requires pollSliceMs > 0
    ensures ms == 0 <==> nowNs >= deadlineNs
    ensures 0 <= ms <= pollSliceMs && ms <= INT_MAX
    ensures ms > 1 ==> nowNs + ms * 1_000_000 <= deadlineNs
    ensures nowNs < deadlineNs && ms < pollSliceMs && ms < INT_MAX ==> deadlineNs < nowNs + (ms + 1) * 1_000_000
  {
    if nowNs >= deadlineNs then 0
    else
      var remaining := (deadlineNs - nowNs) / 1_000_000;
      var positive := if remaining > 0 then remaining else 1;
      var bounded := if pollSliceMs <= positive then pollSliceMs else positive;
      if bounded > INT_MAX then INT_MAX else bounded
  }

  /** The sending end of a connection: the bytes the kernel has taken, in order. */
  class Socket {
    var stream: seq<byte>

    constructor ()
      ensures stream == []
    {
      stream := [];
    }
  }

  predicate SawStop(ticks: seq<SendTick>)
  {
    exists i :: 0 <= i < |ticks| && (ticks[i].stopBefore || ticks[i].stopAfter)
  }

  predicate SawDeadline(ticks: seq<SendTick>, deadline: int)
  {
    exists i :: 0 <= i < |ticks| && (ticks[i].nowBefore >= deadline || ticks[i].nowAfter >= deadline)
  }

  /** This turn ends the call with an error: send took nothing or failed, or poll failed after EAGAIN. */
  predicate Fails(tick: SendTick)
  {
    || tick.result == Sent(0)
    || tick.result == SendFailed
    || (tick.result == WouldBlock && (tick.poll == PollFailed || tick.poll == PollInvalid || tick.poll == PollHangup))
  }

  /** The bytes that send takes over these turns. */
  function Taken(ticks: seq<SendTick>): (n: nat)
  {
    if ticks == [] then 0
    else (if ticks[0].result.Sent? then ticks[0].result.n else 0) + Taken(ticks[1..])
  }

  /** Nothing interferes: the flag stays down, the deadline is never reached, and no turn fails. */
  predicate Calm(ticks: seq<SendTick>, deadline: int)
  {
    forall i :: 0 <= i < |ticks| ==>
      && !ticks[i].stopBefore && !ticks[i].stopAfter
      && ticks[i].nowBefore < deadline && ticks[i].nowAfter < deadline
      && !Fails(ticks[i])
  }

  /** The loop goes on after this turn: both checks pass where they are made, and nothing fails. */
  predicate Passes(tick: SendTick, deadline: int, watchStop: bool)
  {
    && !(watchStop && tick.stopBefore) && tick.nowBefore < deadline
    && (tick.result.WouldBlock? ==> !(watchStop && tick.stopAfter) && tick.nowAfter < deadline)
    && !Fails(tick)
  }

  predicate ChecksPassed(ticks: seq<SendTick>, deadline: int, watchStop: bool)
  {
    forall i :: 0 <= i < |ticks| ==> Passes(ticks[i], deadline, watchStop)
  }

  /** Why a turn ends the call: a raised flag, a reached deadline or a failure, in the order of the checks. */
  predicate Causes(tick: SendTick, outcome: SendOutcome, deadline: int, watchStop: bool)
  {
    var early := watchStop && tick.stopBefore;
    var late := tick.result.WouldBlock? && watchStop && tick.stopAfter;
    match outcome
    case SendCancelled => early || (tick.nowBefore < deadline && late)
    case SendTimeout =>
      !early && (tick.nowBefore >= deadline || (tick.result.WouldBlock? && !late && tick.nowAfter >= deadline))
    case SendError =>
      && !early && !late && Fails(tick) && tick.nowBefore < deadline
      && (tick.result.WouldBlock? ==> tick.nowAfter < deadline)
    case _ => false
  }

  // ---------------------------------------------------------------- the loop as a value

  datatype Turn = Proceed(taken: nat) | Leave(outcome: SendOutcome)

  /** One turn of the loop with `remaining` bytes to go. */
  function TakeTurn(tick: SendTick, remaining: nat, deadline: int, watchStop: bool): (r: Turn)
    requires remaining > 0
    ensures r.Proceed? ==> r.taken <= remaining
    ensures r.Leave? ==> r.outcome.SendTimeout? || r.outcome.SendCancelled? || r.outcome.SendError?
  {
    if watchStop && tick.stopBefore then Leave(SendCancelled)
    else if tick.nowBefore >= deadline then Leave(SendTimeout)
    else
      match tick.result
      case Sent(n) => if n == 0 then Leave(SendError) else Proceed(if n <= remaining then n else remaining)
      case Interrupted => Proceed(0)
      case SendFailed => Leave(SendError)
      case WouldBlock =>
        if watchStop && tick.stopAfter then Leave(SendCancelled)
        else if tick.nowAfter >= deadline then Leave(SendTimeout)
        else if tick.poll.PollFailed? || tick.poll.PollInvalid? || tick.poll.PollHangup? then Leave(SendError)
        else Proceed(0)
  }

  datatype LoopResult = LoopResult(outcome: SendOutcome, sent: nat, used: nat)

  /** What the loop makes of a script of ticks. */
  function SendLoop(size: nat, sent: nat, deadline: int, watchStop: bool, ticks: seq<SendTick>): (r: LoopResult)
    requires sent <= size
    ensures sent <= r.sent <= size && r.used <= |ticks|
    ensures r.outcome == SendOk <==> r.sent == size
    ensures !r.outcome.SendInvalidArgument?
    decreases |ticks|
  {
    if sent == size then LoopResult(SendOk, sent, 0)
    else if ticks == [] then LoopResult(SendPending, sent, 0)
    else
      match TakeTurn(ticks[0], size - sent, deadline, watchStop)
      case Leave(outcome) => LoopResult(outcome, sent, 1)
      case Proceed(taken) =>
        var r := SendLoop(size, sent + taken, deadline, watchStop, ticks[1..]);
        r.(used := r.used + 1)
  }

  /** One turn in the middle of a script. */
  lemma SendLoopStep(size: nat, sent: nat, deadline: int, watchStop: bool, ticks: seq<SendTick>, used: nat)
    requires sent < size && used <= |ticks|
    ensures SendLoop(size, sent, deadline, watchStop, ticks[used..])
         == if used == |ticks| then LoopResult(SendPending, sent, 0)
            else
              var turn := TakeTurn(ticks[used], size - sent, deadline, watchStop);
              if turn.Leave? then LoopResult(turn.outcome, sent, 1)
              else
                var r := SendLoop(size, sent + turn.taken, deadline, watchStop, ticks[used + 1..]);
                r.(used := r.used + 1)
  {
    hide TakeTurn;
    if used < |ticks| {
      assert ticks[used..][0] == ticks[used] && ticks[used..][1..] == ticks[used + 1..];
    }
  }

  /** The two loops of one frame, header and payload, under one deadline and with the stop flag watched. */
  function SendParts(f: Frame, deadline: int, ticks: seq<SendTick>): (r: LoopResult)
  {
    var header := SendLoop(WIRE_HEADER_SIZE, 0, deadline, true, ticks);
    if header.outcome != SendOk then header
    else
      var payload := SendLoop(|f.data|, 0, deadline, true, ticks[header.used..]);
      LoopResult(payload.outcome, WIRE_HEADER_SIZE + payload.sent, header.used + payload.used)
  }

  /** send_all_until. The script of ticks is finite: when it ends the call is still in progress. */
  method SendAllUntil(fd: int, socket: Socket, data: Option<seq<byte>>, size: nat, deadline: int,
                      watchStop: bool, pollSliceMs: int, ticks: seq<SendTick>)
    returns (outcome: SendOutcome, sent: nat, used: nat)
    requires data.Some? ==> |data.value| == size
    modifies socket
    ensures outcome == SendInvalidArgument <==> fd < 0 || (size > 0 && data.None?) || pollSliceMs <= 0
    ensures sent <= size && used <= |ticks|
    ensures size > 0 && data.Some? ==> socket.stream == old(socket.stream) + data.value[..sent]
    ensures size == 0 || data.None? ==> socket.stream == old(socket.stream)
    ensures outcome == SendInvalidArgument ==> sent == 0
    ensures outcome != SendInvalidArgument ==> (outcome == SendOk <==> sent == size)
    ensures outcome == SendCancelled ==> watchStop && SawStop(ticks[..used])
    ensures outcome == SendTimeout ==> SawDeadline(ticks[..used], deadline)
    ensures outcome == SendError ==> used > 0 && Fails(ticks[used - 1])
    ensures outcome == SendPending ==> used == |ticks|
    ensures outcome != SendInvalidArgument && Calm(ticks, deadline) ==>
              outcome == (if Taken(ticks) >= size then SendOk else SendPending)
              && sent == if Taken(ticks) >= size then size else Taken(ticks)
    ensures outcome == SendOk || outcome == SendPending ==> ChecksPassed(ticks[..used], deadline, watchStop)
    ensures outcome.SendTimeout? || outcome.SendCancelled? || outcome.SendError? ==>
              && used > 0 && Causes(ticks[used - 1], outcome, deadline, watchStop)
              && ChecksPassed(ticks[..used - 1], deadline, watchStop)
    ensures outcome != SendInvalidArgument ==>
              LoopResult(outcome, sent, used) == SendLoop(size, 0, deadline, watchStop, ticks)
  {
    if fd < 0 || (size > 0 && data.None?) || pollSliceMs <= 0 {
      return SendInvalidArgument, 0, 0;
    }
    if size == 0 {
      return SendOk, 0, 0;
    }
    outcome, sent, used := SendWhileAny(socket, data.value, deadline, watchStop, pollSliceMs, ticks);
    LoopCauses(size, 0, deadline, watchStop, ticks);
    if Calm(ticks, deadline) {
      CalmLoop(size, 0, deadline, watchStop, ticks);
    }
  }

  /** The loop of send_all_until. */
  method SendWhileAny(socket: Socket, data: seq<byte>, deadline: int, watchStop: bool, pollSliceMs: int,
                      ticks: seq<SendTick>)
    returns (outcome: SendOutcome, sent: nat, used: nat)
    requires pollSliceMs > 0
    modifies socket
    ensures LoopResult(outcome, sent, used) == SendLoop(|data|, 0, deadline, watchStop, ticks)
    ensures socket.stream == old(socket.stream) + data[..sent]
  {
    hide SendLoop;
    sent, used := 0, 0;
    assert ticks[0..] == ticks;
    while sent < |data|
      invariant sent <= |data| && used <= |ticks|
      invariant socket.stream == old(socket.stream) + data[..sent]
      invariant var r := SendLoop(|data|, sent, deadline, watchStop, ticks[used..]);
                SendLoop(|data|, 0, deadline, watchStop, ticks) == r.(used := used + r.used)
      decreases |ticks| - used
    {
      SendLoopStep(|data|, sent, deadline, watchStop, ticks, used);
      if used == |ticks| {
        return SendPending, sent, used;
      }
      var tick := ticks[used];
      used := used + 1;

      if watchStop && tick.stopBefore {
        return SendCancelled, sent, used;
      }
      if tick.nowBefore >= deadline {
        return SendTimeout, sent, used;
      }
      match tick.result {
        case Sent(n) =>
          if n == 0 {
            return SendError, sent, used;
          }
          var taken := if n <= |data| - sent then n else |data| - sent;
          socket.stream := socket.stream + data[sent..sent + taken];
          assert data[..sent + taken] == data[..sent] + data[sent..sent + taken];
          sent := sent + taken;
        case Interrupted =>
        case SendFailed =>
          return SendError, sent, used;
        case WouldBlock =>
          if watchStop && tick.stopAfter {
            return SendCancelled, sent, used;
          }
          var waitMs := RemainingWaitMs(deadline, tick.nowAfter, pollSliceMs);
          if waitMs <= 0 {
            return SendTimeout, sent, used;
          }
          match tick.poll {
            case PollInterrupted =>
            case PollTimeout =>
            case PollWritable =>
            case PollFailed => return SendError, sent, used;
            case PollInvalid => return SendError, sent, used;
            case PollHangup => return SendError, sent, used;
          }
      }
    }
    outcome := SendOk;
    FinishedLoop(|data|, deadline, watchStop, ticks[used..]);
  }

  lemma FinishedLoop(size: nat, deadline: int, watchStop: bool, ticks: seq<SendTick>)
    ensures SendLoop(size, size, deadline, watchStop, ticks) == LoopResult(SendOk, size, 0)
  {
  }

  /** Every end of the loop has its cause in the ticks it used, and no turn went on after a failed check. */
  lemma {:induction false} LoopCauses(size: nat, sent: nat, deadline: int, watchStop: bool, ticks: seq<SendTick>)
    requires sent <= size
    ensures var r := SendLoop(size, sent, deadline, watchStop, ticks);
            && (r.outcome == SendCancelled ==> watchStop && SawStop(ticks[..r.used]))
            && (r.outcome == SendTimeout ==> SawDeadline(ticks[..r.used], deadline))
            && (r.outcome == SendError ==> r.used > 0 && Fails(ticks[r.used - 1]))
            && (r.outcome == SendPending ==> r.used == |ticks|)
            && (r.outcome == SendOk || r.outcome == SendPending ==> ChecksPassed(ticks[..r.used], deadline, watchStop))
            && (r.outcome.SendTimeout? || r.outcome.SendCancelled? || r.outcome.SendError? ==>
                  && r.used > 0 && Causes(ticks[r.used - 1], r.outcome, deadline, watchStop)
                  && ChecksPassed(ticks[..r.used - 1], deadline, watchStop))
    decreases |ticks|
  {
    NoChecks(deadline, watchStop);
    hide TakeTurn, SawStop, SawDeadline, ChecksPassed, Fails, Causes, Passes;
    if sent < size && ticks != [] {
      var tick := ticks[0];
      var turn := TakeTurn(tick, size - sent, deadline, watchStop);
      var r := SendLoop(size, sent, deadline, watchStop, ticks);
      TurnCauses(tick, size - sent, deadline, watchStop);
      if turn.Leave? {
        assert ticks[..1] == [tick] && ticks[..0] == [];
      } else {
        LoopCauses(size, sent + turn.taken, deadline, watchStop, ticks[1..]);
        assert ticks[..r.used] == [tick] + ticks[1..][..r.used - 1];
        CausesGrow(tick, ticks[1..][..r.used - 1], deadline);
        ChecksGrow(tick, ticks[1..][..r.used - 1], deadline, watchStop);
        if r.used > 1 {
          assert ticks[..r.used - 1] == [tick] + ticks[1..][..r.used - 2];
          ChecksGrow(tick, ticks[1..][..r.used - 2], deadline, watchStop);
        }
      }
    }
  }

  lemma TurnCauses(tick: SendTick, remaining: nat, deadline: int, watchStop: bool)
    requires remaining > 0
    ensures var turn := TakeTurn(tick, remaining, deadline, watchStop);
            && (turn == Leave(SendCancelled) ==> watchStop && SawStop([tick]))
            && (turn == Leave(SendTimeout) ==> SawDeadline([tick], deadline))
            && (turn == Leave(SendError) ==> Fails(tick))
            && (turn.Leave? ==> Causes(tick, turn.outcome, deadline, watchStop))
            && (turn.Proceed? ==> Passes(tick, deadline, watchStop))
  {
    assert [tick][0] == tick;
  }

  /** Completeness: undisturbed, the loop sends exactly what send takes, and ends when that is everything. */
  lemma {:induction false} CalmLoop(size: nat, sent: nat, deadline: int, watchStop: bool, ticks: seq<SendTick>)
    requires sent <= size && Calm(ticks, deadline)
    ensures var r := SendLoop(size, sent, deadline, watchStop, ticks);
            if sent + Taken(ticks) >= size then r.outcome == SendOk && r.sent == size
            else r == LoopResult(SendPending, sent + Taken(ticks), |ticks|)
    decreases |ticks|
  {
    hide TakeTurn, Fails, Calm;
    if sent < size && ticks != [] {
      CalmTail(ticks, deadline);
      CalmTurn(ticks[0], size - sent, deadline, watchStop);
      var turn := TakeTurn(ticks[0], size - sent, deadline, watchStop);
      CalmLoop(size, sent + turn.taken, deadline, watchStop, ticks[1..]);
    }
  }

  lemma CalmTail(ticks: seq<SendTick>, deadline: int)
    requires Calm(ticks, deadline) && ticks != []
    ensures !ticks[0].stopBefore && !ticks[0].stopAfter && !Fails(ticks[0])
    ensures ticks[0].nowBefore < deadline && ticks[0].nowAfter < deadline
    ensures Calm(ticks[1..], deadline)
  {
  }

  /** How many turns hand bytes to the kernel. */
  function SentTurns(ticks: seq<SendTick>): (n: nat)
  {
    if ticks == [] then 0 else (if ticks[0].result.Sent? then 1 else 0) + SentTurns(ticks[1..])
  }

  lemma {:induction false} TurnsTake(ticks: seq<SendTick>, deadline: int)
    requires Calm(ticks, deadline)
    ensures Taken(ticks) >= SentTurns(ticks)
  {
    hide Calm;
    if ticks != [] {
      CalmTail(ticks, deadline);
      TurnsTake(ticks[1..], deadline);
      if ticks[0].result.Sent? {
        SentIsPositive(ticks[0]);
      }
    }
  }

  /** Undisturbed, a loop uses at most one such turn for a byte, and leaves an undisturbed script. */
  lemma {:induction false} CalmRest(size: nat, sent: nat, deadline: int, ticks: seq<SendTick>)
    requires sent <= size && Calm(ticks, deadline)
    ensures var r := SendLoop(size, sent, deadline, true, ticks);
            SentTurns(ticks) <= size - sent + SentTurns(ticks[r.used..]) && Calm(ticks[r.used..], deadline)
    decreases |ticks|
  {
    hide TakeTurn, Fails, Calm;
    var r := SendLoop(size, sent, deadline, true, ticks);
    if sent < size && ticks != [] {
      CalmTail(ticks, deadline);
      CalmTurn(ticks[0], size - sent, deadline, true);
      if ticks[0].result.Sent? {
        SentIsPositive(ticks[0]);
      }
      var turn := TakeTurn(ticks[0], size - sent, deadline, true);
      CalmRest(size, sent + turn.taken, deadline, ticks[1..]);
      assert ticks[r.used..] == ticks[1..][r.used - 1..];
    } else {
      assert ticks[r.used..] == ticks;
    }
  }

  lemma SentIsPositive(tick: SendTick)
    requires !Fails(tick) && tick.result.Sent?
    ensures tick.result.n > 0
  {
  }

  /** An undisturbed frame with a turn for every byte is sent. */
  lemma CalmFrame(f: Frame, deadline: int, ticks: seq<SendTick>)
    requires Calm(ticks, deadline) && SentTurns(ticks) >= WIRE_HEADER_SIZE + |f.data|
    ensures SendParts(f, deadline, ticks).outcome == SendOk
  {
    hide Calm, SendLoop, SentTurns, Taken;
    TurnsTake(ticks, deadline);
    CalmLoop(WIRE_HEADER_SIZE, 0, deadline, true, ticks);
    CalmRest(WIRE_HEADER_SIZE, 0, deadline, ticks);
    var rest := ticks[SendLoop(WIRE_HEADER_SIZE, 0, deadline, true, ticks).used..];
    TurnsTake(rest, deadline);
    CalmLoop(|f.data|, 0, deadline, true, rest);
  }

  lemma CalmTurn(tick: SendTick, remaining: nat, deadline: int, watchStop: bool)
    requires remaining > 0 && !tick.stopBefore && !tick.stopAfter && !Fails(tick)
    requires tick.nowBefore < deadline && tick.nowAfter < deadline
    ensures var taken := if tick.result.Sent? then tick.result.n else 0;
            TakeTurn(tick, remaining, deadline, watchStop) == Proceed(if taken <= remaining then taken else remaining)
  {
  }

  lemma NoChecks(deadline: int, watchStop: bool)
    ensures ChecksPassed([], deadline, watchStop)
  {
  }

  lemma ChecksGrow(tick: SendTick, ticks: seq<SendTick>, deadline: int, watchStop: bool)
    requires Passes(tick, deadline, watchStop)
    ensures ChecksPassed(ticks, deadline, watchStop) ==> ChecksPassed([tick] + ticks, deadline, watchStop)
  {
  }

  lemma CausesGrow(tick: SendTick, ticks: seq<SendTick>, deadline: int)
    ensures SawStop(ticks) ==> SawStop([tick] + ticks)
    ensures SawDeadline(ticks, deadline) ==> SawDeadline([tick] + ticks, deadline)
  {
    assert forall i :: 0 <= i < |ticks| ==> ([tick] + ticks)[i + 1] == ticks[i];
  }

  /** Enough for a frame to be sent: it is sendable, nothing interferes, and there is a send call for every byte. */
  predicate Undisturbed(f: Frame, deadline: int, ticks: seq<SendTick>)
  {
    Sendable(f) && Calm(ticks, deadline) && SentTurns(ticks) >= WIRE_HEADER_SIZE + |f.data|
  }

  lemma UndisturbedIsSent(f: Frame, deadline: int, ticks: seq<SendTick>)
    requires Undisturbed(f, deadline, ticks)
    ensures Sendable(f) && SendParts(f, deadline, ticks).outcome == SendOk
  {
    CalmFrame(f, deadline, ticks);
  }

  /** send_frame_over_tcp: header, then payload, under one deadline. The bytes on the socket are a
      prefix of the frame's wire form, and all of it exactly when the call succeeds. */
  method SendFrame(fd: int, socket: Socket, f: Frame, deadline: int, ticks: seq<SendTick>)
    returns (outcome: SendOutcome, sent: nat, used: nat)
    modifies socket
    ensures used <= |ticks|
    ensures !Sendable(f) ==> outcome == SendError && sent == 0 && socket.stream == old(socket.stream)
    ensures Sendable(f) ==> sent <= |Wire(f)| && socket.stream == old(socket.stream) + Wire(f)[..sent]
    ensures Sendable(f) ==> (outcome == SendOk <==> sent == |Wire(f)|)
    ensures outcome == SendCancelled ==> SawStop(ticks[..used])
    ensures outcome == SendInvalidArgument <==> Sendable(f) && fd < 0
    ensures Sendable(f) && fd >= 0 ==> LoopResult(outcome, sent, used) == SendParts(f, deadline, ticks)
    ensures !Sendable(f) <==> |f.data| > 0xFFFF_FFFF || f.captureTimestampNs == 0
  {
    hide Encode, Checksum, SendLoop;
    if |f.data| > U32_MAX {
      return SendError, 0, 0;
    }
    var crc := ComputeCrc32(f.data);
    if f.captureTimestampNs == 0 {
      return SendError, 0, 0;
    }
    var header := MakeHeader(f.sequence, f.captureTimestampNs, f.width, f.height, f.pixelFormat, |f.data|, crc);
    var wireHeader := SerializeHeader(header);
    var bytes := wireHeader[..];
    assert bytes == Encode(HeaderOf(f));

    outcome, sent, used := SendAllUntil(fd, socket, Some(bytes), |bytes|, deadline, true, 50, ticks);
    assert Wire(f)[..sent] == bytes[..sent];
    if outcome != SendOk {
      return;
    }
    assert bytes[..sent] == bytes;
    var sentPayload, usedPayload;
    outcome, sentPayload, usedPayload :=
      SendAllUntil(fd, socket, Some(f.data), |f.data|, deadline, true, 50, ticks[used..]);
    assert ticks[..used + usedPayload] == ticks[..used] + ticks[used..][..usedPayload];
    assert Wire(f)[..sent + sentPayload] == bytes + f.data[..sentPayload];
    assert outcome == SendCancelled ==> SawStop(ticks[..used + usedPayload]) by {
      if outcome == SendCancelled {
        StopStaysSeen(ticks[..used], ticks[used..][..usedPayload]);
      }
    }
    sent, used := sent + sentPayload, used + usedPayload;
  }

  lemma StopStaysSeen(a: seq<SendTick>, b: seq<SendTick>)
    requires SawStop(b)
    ensures SawStop(a + b)
  {
    var i :| 0 <= i < |b| && (b[i].stopBefore || b[i].stopAfter);
    assert (a + b)[|a| + i] == b[i];
  }

  predicate AllSendable(frames: seq<Frame>)
  {
    forall f :: f in frames ==> Sendable(f)
  }

  /** The bytes of completely sent frames. */
  function WireAll(frames: seq<Frame>): (w: seq<byte>)
    requires AllSendable(frames)
  {
    if frames == [] then [] else Wire(frames[0]) + WireAll(frames[1..])
  }

  lemma {:induction false} WireAllSnoc(frames: seq<Frame>, f: Frame)
    requires AllSendable(frames) && Sendable(f)
    ensures AllSendable(frames + [f]) && WireAll(frames + [f]) == WireAll(frames) + Wire(f)
  {
    hide Wire;
    if frames == [] {
      assert frames + [f] == [f] && [f][1..] == [];
      assert WireAll([f]) == Wire(f) + WireAll([]);
    } else {
      WireAllSnoc(frames[1..], f);
      assert (frames + [f])[1..] == frames[1..] + [f];
    }
  }

  /** What a socket carries: complete frames, then possibly a proper part of one more. */
  ghost predicate Carries(stream: seq<byte>, whole: seq<Frame>, part: Option<(Frame, nat)>)
  {
    && AllSendable(whole)
    && (part.None? ==> stream == WireAll(whole))
    && (part.Some? ==>
          && Sendable(part.value.0) && part.value.1 < |Wire(part.value.0)|
          && stream == WireAll(whole) + Wire(part.value.0)[..part.value.1])
  }

  /** More bytes of the frame in progress keep the shape; the last byte completes the frame. */
  lemma CarriesMore(stream: seq<byte>, whole: seq<Frame>, f: Frame, n: nat, m: nat)
    requires Carries(stream, whole, Some((f, n))) && n < m <= |Wire(f)|
    ensures m < |Wire(f)| ==> Carries(stream + Wire(f)[n..m], whole, Some((f, m)))
    ensures m == |Wire(f)| ==> Carries(stream + Wire(f)[n..m], whole + [f], None)
  {
    hide Wire, WireAll;
    var w, before := Wire(f), WireAll(whole);
    assert before + w[..n] + w[n..m] == before + w[..m];
    if m == |w| {
      assert w[..m] == w;
      WireAllSnoc(whole, f);
    }
  }

  /** The sending part of the TCP thread: frames go out in order until one fails, and the first
      failure ends the thread, so a broken frame is the last thing on the socket. */
  method SendFrames(fd: int, socket: Socket, frames: seq<Frame>, deadlines: seq<int>, ticks: seq<seq<SendTick>>)
    returns (sentFrames: nat, outcome: SendOutcome, ghost part: Option<(Frame, nat)>)
    requires |deadlines| == |ticks| == |frames|
    requires socket.stream == []
    modifies socket
    ensures sentFrames <= |frames|
    ensures outcome == SendOk <==> sentFrames == |frames|
    ensures Carries(socket.stream, frames[..sentFrames], part)
    ensures part.Some? ==> sentFrames < |frames| && part.value.0 == frames[sentFrames]
    ensures fd >= 0 && (forall i :: 0 <= i < |frames| ==> Undisturbed(frames[i], deadlines[i], ticks[i])) ==>
              outcome == SendOk
  {
    hide Wire, Undisturbed, SendParts;
    sentFrames, outcome, part := 0, SendOk, None;
    while sentFrames < |frames|
      invariant sentFrames <= |frames|
      invariant outcome == SendOk && part == None
      invariant Carries(socket.stream, frames[..sentFrames], None)
    {
      var f := frames[sentFrames];
      var sent, used;
      outcome, sent, used := SendFrame(fd, socket, f, deadlines[sentFrames], ticks[sentFrames]);
      if Undisturbed(f, deadlines[sentFrames], ticks[sentFrames]) {
        UndisturbedIsSent(f, deadlines[sentFrames], ticks[sentFrames]);
      }
      if outcome != SendOk {
        if Sendable(f) {
          part := Some((f, sent));
        }
        return;
      }
      WireAllSnoc(frames[..sentFrames], f);
      assert frames[..sentFrames + 1] == frames[..sentFrames] + [f];
      assert Wire(f)[..sent] == Wire(f);
      sentFrames := sentFrames + 1;
    }
  }
}
