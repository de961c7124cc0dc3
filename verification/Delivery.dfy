/** From the sender's socket to the receiver's frame loop: what arrives is a prefix of what was sent. */
module Delivery {
  import opened Options
  import opened Bytes
  import opened Crc32
  import opened FrameProtocol
  import opened Frames
  import opened TcpSend
  import opened TcpReceiver

  /** A sent frame as the receiver counts it. */
  function AsReceived(f: Frame): (r: Received)
    requires Sendable(f)
  {
    Received(HeaderOf(f), f.data)
  }

  function AllReceived(frames: seq<Frame>): (r: seq<Received>)
    requires AllSendable(frames)
    ensures |r| == |frames|
  {
    seq(|frames|, i requires 0 <= i < |frames| => AsReceived(frames[i]))
  }

  /** How many frames come before the first one whose header the receiver does not accept. */
  function Acceptable(frames: seq<Frame>, limit: u32): (n: nat)
    requires AllSendable(frames)
    ensures n <= |frames|
  {
    if frames == [] || ValidateHeader(HeaderOf(frames[0]), limit) != Accepted then 0
    else 1 + Acceptable(frames[1..], limit)
  }

  /** Acceptable is what its name says. */
  lemma {:induction false} AcceptableIsFirst(frames: seq<Frame>, limit: u32)
    requires AllSendable(frames)
    ensures forall i :: 0 <= i < Acceptable(frames, limit) ==> ValidateHeader(HeaderOf(frames[i]), limit) == Accepted
    ensures var n := Acceptable(frames, limit);
            n < |frames| ==> ValidateHeader(HeaderOf(frames[n]), limit) != Accepted
  {
    hide ValidateHeader, HeaderOf;
    if frames != [] {
      AcceptableIsFirst(frames[1..], limit);
    }
  }

  /** How many of n frames the frame limit leaves. */
  function Kept(n: nat, maxFrames: int, received: nat): (k: nat)
    ensures k <= n
  {
    if maxFrames <= 0 || received + n <= maxFrames then n
    else if received < maxFrames then maxFrames - received
    else 0
  }

  /** How a session ends that has read all complete frames. */
  function EndOf(part: Option<(Frame, nat)>, limit: u32): (e: SessionEnd)
    requires part.Some? ==> Sendable(part.value.0)
  {
    if part.None? || part.value.1 < WIRE_HEADER_SIZE then PeerLeft
    else if ValidateHeader(HeaderOf(part.value.0), limit) == Accepted then Truncated
    else HeaderRejected
  }

  /** A stream that starts with a whole frame yields that frame, or ends at its header. */
  lemma WholeFrameTaken(stream: seq<byte>, f: Frame, limit: u32)
    requires Sendable(f) && Wire(f) <= stream
    ensures TakeFrame(stream, limit)
         == if ValidateHeader(HeaderOf(f), limit) == Accepted then Next(AsReceived(f), stream[|Wire(f)|..])
            else Stop(HeaderRejected)
  {
    hide Encode, Decode, Checksum, ValidateHeader;
    var head := stream[..WIRE_HEADER_SIZE];
    var rest := stream[WIRE_HEADER_SIZE..];
    assert head == Wire(f)[..WIRE_HEADER_SIZE] == Encode(HeaderOf(f));
    DecodeEncode(HeaderOf(f));
    assert rest[..|f.data|] == stream[WIRE_HEADER_SIZE..WIRE_HEADER_SIZE + |f.data|]
        == Wire(f)[WIRE_HEADER_SIZE..] == f.data;
    assert rest[|f.data|..] == stream[|Wire(f)|..];
  }

  /** A proper part of a frame never yields a frame. */
  lemma PartialFrameNotTaken(stream: seq<byte>, f: Frame, limit: u32)
    requires Sendable(f) && stream < Wire(f)
    ensures TakeFrame(stream, limit)
         == Stop(if |stream| < WIRE_HEADER_SIZE then PeerLeft
                 else if ValidateHeader(HeaderOf(f), limit) == Accepted then Truncated
                 else HeaderRejected)
  {
    hide Encode, Decode, Checksum, ValidateHeader;
    if |stream| >= WIRE_HEADER_SIZE {
      assert stream[..WIRE_HEADER_SIZE] == Wire(f)[..WIRE_HEADER_SIZE] == Encode(HeaderOf(f));
      DecodeEncode(HeaderOf(f));
    }
  }

  /** A stream of whole frames, cut behind the first one. */
  lemma FirstFrame(stream: seq<byte>, whole: seq<Frame>, part: Option<(Frame, nat)>) returns (rest: seq<byte>)
    requires Carries(stream, whole, part) && whole != []
    ensures Sendable(whole[0]) && stream == Wire(whole[0]) + rest && Carries(rest, whole[1..], part)
    ensures AllSendable(whole) && AllReceived(whole) == [AsReceived(whole[0])] + AllReceived(whole[1..])
  {
    hide Wire, AsReceived;
    rest := if part.None? then WireAll(whole[1..]) else WireAll(whole[1..]) + Wire(part.value.0)[..part.value.1];
  }

  /** A stream without whole frames holds nothing, or a proper part of a frame. */
  lemma NoWholeFrame(stream: seq<byte>, part: Option<(Frame, nat)>)
    requires Carries(stream, [], part)
    ensures if part.None? then stream == []
            else Sendable(part.value.0) && stream < Wire(part.value.0) && |stream| == part.value.1
  {
    hide Wire;
  }

  /** End to end, on one session: for any bytes that arrive out of what the sender put on the socket,
      the receiver counts a prefix of the completely sent frames, equal in header and payload. A broken
      frame at the end of the stream is never counted. */
  lemma {:induction false} ReceivedIsPrefix(
      delivered: seq<byte>, stream: seq<byte>, whole: seq<Frame>, part: Option<(Frame, nat)>,
      limit: u32, maxFrames: int, received: nat)
    requires Carries(stream, whole, part) && delivered <= stream
    ensures Parse(delivered, limit, maxFrames, received).frames <= AllReceived(whole)
    decreases |whole|
  {
    hide Wire, TakeFrame, ValidateHeader, AsReceived, AllReceived, Carries;
    CarriedAreSendable(stream, whole, part);
    if AtLimit(maxFrames, received) {
    } else if whole == [] {
      NoWholeFrame(stream, part);
      if part.None? {
        NothingTaken(delivered, limit);
      } else {
        PartialFrameNotTaken(delivered, part.value.0, limit);
      }
    } else {
      var f := whole[0];
      var rest := FirstFrame(stream, whole, part);
      if |delivered| < |Wire(f)| {
        assert delivered == Wire(f)[..|delivered|];
        PartialFrameNotTaken(delivered, f, limit);
      } else {
        assert Wire(f) == delivered[..|Wire(f)|];
        WholeFrameTaken(delivered, f, limit);
        var tail := delivered[|Wire(f)|..];
        assert tail == rest[..|tail|];
        ReceivedIsPrefix(tail, rest, whole[1..], part, limit, maxFrames, received + 1);
      }
    }
  }

  lemma CarriedAreSendable(stream: seq<byte>, whole: seq<Frame>, part: Option<(Frame, nat)>)
    requires Carries(stream, whole, part)
    ensures AllSendable(whole) && (part.Some? ==> Sendable(part.value.0))
  {
    hide Wire;
  }

  lemma NothingTaken(delivered: seq<byte>, limit: u32)
    requires delivered == []
    ensures TakeFrame(delivered, limit) == Stop(PeerLeft)
  {
    hide Checksum, Decode;
  }

  /** The session that a receiver makes of a completely delivered stream: it counts the frames before the first
      unacceptable header, as far as the frame limit goes. It ends at the limit, else at that header, else as
      the broken part behind the last frame makes it end. */
  function Expected(whole: seq<Frame>, part: Option<(Frame, nat)>, limit: u32, maxFrames: int, received: nat)
    : (s: Session)
    requires AllSendable(whole) && (part.Some? ==> Sendable(part.value.0))
  {
    var k := Kept(Acceptable(whole, limit), maxFrames, received);
    Session(AllReceived(whole[..k]),
            if AtLimit(maxFrames, received + k) then FrameLimit
            else if k < |whole| then HeaderRejected
            else EndOf(part, limit))
  }

  /** One acceptable frame below the limit is counted, and the rest is expected of the rest. */
  lemma ExpectedStep(whole: seq<Frame>, part: Option<(Frame, nat)>, limit: u32, maxFrames: int, received: nat)
    requires AllSendable(whole) && (part.Some? ==> Sendable(part.value.0))
    requires whole != [] && ValidateHeader(HeaderOf(whole[0]), limit) == Accepted && !AtLimit(maxFrames, received)
    ensures var tail := Expected(whole[1..], part, limit, maxFrames, received + 1);
            Expected(whole, part, limit, maxFrames, received) == Session([AsReceived(whole[0])] + tail.frames, tail.end)
  {
    hide ValidateHeader, HeaderOf, AsReceived, EndOf;
    var k := Kept(Acceptable(whole, limit), maxFrames, received);
    assert k == 1 + Kept(Acceptable(whole[1..], limit), maxFrames, received + 1);
    assert whole[..k] == [whole[0]] + whole[1..][..k - 1];
  }

  /** Exactly what a completely delivered stream yields, for every frame limit and whatever headers it holds. */
  lemma {:induction false} SessionIsExact(
      stream: seq<byte>, whole: seq<Frame>, part: Option<(Frame, nat)>, limit: u32, maxFrames: int, received: nat)
    requires Carries(stream, whole, part)
    ensures AllSendable(whole) && (part.Some? ==> Sendable(part.value.0))
    ensures Parse(stream, limit, maxFrames, received) == Expected(whole, part, limit, maxFrames, received)
    decreases |whole|
  {
    hide Wire, TakeFrame, ValidateHeader, AsReceived, HeaderOf, Carries;
    CarriedAreSendable(stream, whole, part);
    if AtLimit(maxFrames, received) {
    } else if whole == [] {
      NoWholeFrame(stream, part);
      if part.None? {
        NothingTaken(stream, limit);
      } else {
        PartialFrameNotTaken(stream, part.value.0, limit);
      }
    } else {
      var f := whole[0];
      var rest := FirstFrame(stream, whole, part);
      WholeFrameTaken(stream, f, limit);
      assert stream[|Wire(f)|..] == rest;
      if ValidateHeader(HeaderOf(f), limit) == Accepted {
        SessionIsExact(rest, whole[1..], part, limit, maxFrames, received + 1);
        ExpectedStep(whole, part, limit, maxFrames, received);
      }
    }
  }

  /** A clean close and a cut inside the next frame give the same session exactly when the cut is inside that
      frame's header, or when the session ends before it gets there. */
  lemma CutLooksCleanIff(whole: seq<Frame>, f: Frame, n: nat, limit: u32, maxFrames: int, received: nat)
    requires AllSendable(whole) && Sendable(f) && n < |Wire(f)|
    ensures var stream := WireAll(whole);
            Parse(stream + Wire(f)[..n], limit, maxFrames, received) == Parse(stream, limit, maxFrames, received)
            <==> (|| n < WIRE_HEADER_SIZE
                  || Acceptable(whole, limit) < |whole|
                  || AtLimit(maxFrames, received + |whole|))
  {
    hide Wire, WireAll, Parse, ValidateHeader, HeaderOf, AllReceived, Acceptable;
    var stream := WireAll(whole);
    SessionIsExact(stream, whole, None, limit, maxFrames, received);
    SessionIsExact(stream + Wire(f)[..n], whole, Some((f, n)), limit, maxFrames, received);
  }

  /** So a peer that dies inside a header is counted as one that completed its session: a stream that is cut
      after 43 bytes and an empty one are the same to the receiver. */
  lemma CutHeaderCompletes(f: Frame, limit: u32)
    requires Sendable(f)
    ensures var cut := Wire(f)[..WIRE_HEADER_SIZE - 1];
            cut != [] && Parse(cut, limit, 0, 0) == Parse([], limit, 0, 0) == Session([], PeerLeft)
  {
    hide Wire, ValidateHeader, HeaderOf;
    var cut := Wire(f)[..WIRE_HEADER_SIZE - 1];
    assert |cut| == WIRE_HEADER_SIZE - 1;
    PartialFrameNotTaken(cut, f, limit);
    NothingTaken([], limit);
  }

  /** A frame whose payload was corrupted after the checksum was computed (the test sender's fault)
      is rejected by its checksum. */
  lemma CorruptedFrameRejected(f: Frame, stream: seq<byte>, limit: u32)
    requires Sendable(f) && f.data != []
    requires ValidateHeader(HeaderOf(f), limit) == Accepted
    requires Encode(HeaderOf(f)) + Corrupted(f.data) <= stream
    ensures TakeFrame(stream, limit) == Stop(CrcRejected)
  {
    hide Encode, Decode, Checksum, ValidateHeader, Corrupted;
    CorruptionDetected(f.data);
    var bad := Encode(HeaderOf(f)) + Corrupted(f.data);
    assert stream[..WIRE_HEADER_SIZE] == bad[..WIRE_HEADER_SIZE] == Encode(HeaderOf(f));
    DecodeEncode(HeaderOf(f));
    var rest := stream[WIRE_HEADER_SIZE..];
    assert rest[..|f.data|] == bad[WIRE_HEADER_SIZE..] == Corrupted(f.data);
  }

  /** Nothing stands in the way of a delivery: every send is undisturbed, all bytes arrive, and recv hands them over. */
  predicate Favourable(frames: seq<Frame>, deadlines: seq<int>, ticks: seq<seq<SendTick>>, cut: nat,
                       events: seq<RecvEvent>)
    requires |deadlines| == |ticks| == |frames|
  {
    && (forall i :: 0 <= i < |frames| ==> Undisturbed(frames[i], deadlines[i], ticks[i]))
    && AllSendable(frames) && cut >= |WireAll(frames)| && Generous(events, WireAll(frames))
  }

  /** The two programs on one connection: SendFrames writes, any prefix is delivered, and the frame loop counts
      a prefix of the frames whose send call succeeded, whether it has ended, was ended by an exception or
      still waits. If nothing stands in the way, all frames are sent and the session is the expected one. */
  method Transmit(frames: seq<Frame>, deadlines: seq<int>, ticks: seq<seq<SendTick>>, cut: nat,
                  cfg: Config, events: seq<RecvEvent>, clock: nat -> u64, saveFails: nat -> bool)
    returns (sent: nat, count: nat, exit: LoopExit, ghost received: seq<Received>)
    requires |deadlines| == |ticks| == |frames|
    ensures sent <= |frames| && AllSendable(frames[..sent])
    ensures count <= sent && count == |received| && received <= AllReceived(frames[..sent])
    ensures Favourable(frames, deadlines, ticks, cut, events) && (forall k :: !saveFails(k)) ==>
              && sent == |frames|
              && exit.Ended?
              && Session(received, exit.end) == Expected(frames, None, cfg.maxPayloadBytes, cfg.maxFrames, 0)
  {
    hide Parse, Wire, AllReceived, Expected, Undisturbed, Deliveries;
    var socket := new Socket();
    var outcome;
    ghost var part;
    sent, outcome, part := SendFrames(0, socket, frames, deadlines, ticks);
    var arrived := if cut <= |socket.stream| then socket.stream[..cut] else socket.stream;
    ReceivedIsPrefix(arrived, socket.stream, frames[..sent], part, cfg.maxPayloadBytes, cfg.maxFrames, 0);
    if Favourable(frames, deadlines, ticks, cut, events) {
      assert frames[..sent] == frames && arrived == WireAll(frames);
      SessionIsExact(arrived, frames, None, cfg.maxPayloadBytes, cfg.maxFrames, 0);
    }
    var receiver := new Receiver(cfg, clock);
    var conn := new Connection(arrived);
    exit := receiver.FrameLoop(conn, events, clock, saveFails);
    count, received := receiver.receivedFrames, receiver.frames;
  }
}
