/** The receiving program (src/tcp_receiver.cpp): exact reads over arbitrary chunking, the frame loop
    of one session, and the session loop with its counters and exit codes. */
module TcpReceiver {
  import opened Options
  import opened Bytes
  import opened Crc32
  import opened FrameProtocol

  // ---------------------------------------------------------------- exact reads

  /** What recv answers: some bytes (as many as it likes, but at least one while any are left), EINTR, or an error. */
  datatype RecvEvent = Deliver(n: nat) | RecvInterrupted | RecvFailed

  datatype ReadResult = ReadOk | PeerClosed | ReadError | ReadPending

  /** The receiving end of a connection: the bytes that will still arrive before the peer's close. */
  class Connection {
    var pending: seq<byte>

    constructor (stream: seq<byte>)
      ensures pending == stream
    {
      pending := stream;
    }
  }

  /** How many bytes these calls would hand over if there were enough of them. */
  function Offered(events: seq<RecvEvent>): (n: nat)
  {
    if events == [] then 0
    else
      var last := events[|events| - 1];
      Offered(events[..|events| - 1]) + if last.Deliver? then (if last.n > 0 then last.n else 1) else 0
  }

  /** How many of these calls hand over bytes or report the peer's close. */
  function Deliveries(events: seq<RecvEvent>): (n: nat)
  {
    if events == [] then 0
    else Deliveries(events[..|events| - 1]) + if events[|events| - 1].Deliver? then 1 else 0
  }

  /** After these calls a read of `size` bytes, with `available` ones before the peer's close, is neither complete
      nor over: no call failed, each found bytes to hand over, and together they have not reached the size. */
  predicate StillReading(events: seq<RecvEvent>, size: nat, available: nat)
  {
    if events == [] then size > 0
    else
      var before := events[..|events| - 1];
      && StillReading(before, size, available)
      && match events[|events| - 1]
         case RecvInterrupted => true
         case RecvFailed => false
         case Deliver(_) => Offered(before) < available && (Offered(events) < size || available < size)
  }

  /** When a read ends, and how: with the first call that completes it, that finds the stream closed, or that fails. */
  predicate ReadsUntil(events: seq<RecvEvent>, size: nat, available: nat, r: ReadResult, used: nat)
    requires used <= |events|
  {
    if r == ReadPending then used == |events| && StillReading(events, size, available)
    else if used == 0 then r == ReadOk && size == 0
    else
      var before, last := events[..used - 1], events[used - 1];
      && StillReading(before, size, available)
      && match r
         case ReadError => last.RecvFailed?
         case PeerClosed => last.Deliver? && Offered(before) >= available
         case ReadOk =>
           last.Deliver? && Offered(before) < available && Offered(events[..used]) >= size && available >= size
         case ReadPending => false
  }

  lemma {:induction false} DeliveriesOffer(events: seq<RecvEvent>)
    ensures Deliveries(events) <= Offered(events)
  {
    if events != [] {
      DeliveriesOffer(events[..|events| - 1]);
    }
  }

  lemma {:induction false} ReadingIsBounded(events: seq<RecvEvent>, size: nat, available: nat)
    requires StillReading(events, size, available)
    ensures Deliveries(events) <= available && Deliveries(events) < size && RecvFailed !in events
  {
    if events != [] {
      var before := events[..|events| - 1];
      ReadingIsBounded(before, size, available);
      DeliveriesOffer(before);
      DeliveriesOffer(events);
      assert events == before + [events[|events| - 1]];
    }
  }

  /** Progress: every call takes at least one byte or ends the read, so a read that goes on after as many calls as
      there are bytes has completed, has seen the close, or has failed; which of these, the stream decides. */
  lemma ReadProgress(events: seq<RecvEvent>, size: nat, available: nat, r: ReadResult, used: nat)
    requires used <= |events| && ReadsUntil(events, size, available, r, used)
    ensures r == ReadPending ==> used == |events| && Deliveries(events) <= available && Deliveries(events) < size
                                 && RecvFailed !in events
    ensures r == ReadError ==> used > 0 && events[used - 1] == RecvFailed
    ensures r != ReadError ==> RecvFailed !in events[..used]
    ensures r == ReadOk ==> available >= size && Deliveries(events[..used]) <= size
    ensures r == PeerClosed ==> available < size
    ensures RecvFailed !in events && (Deliveries(events) >= size || Deliveries(events) > available) ==>
              r == if available >= size then ReadOk else PeerClosed
  {
    if used > 0 && r != ReadPending {
      var before := events[..used - 1];
      ReadingIsBounded(before, size, available);
      assert events[..used][..used - 1] == before;
      assert events[..used] == before + [events[used - 1]];
      ReadingOrClosed(before, size, available);
    } else if r == ReadPending {
      ReadingIsBounded(events, size, available);
    }
  }

  /** A read that goes on has taken fewer bytes than its size. */
  lemma ReadingOrClosed(events: seq<RecvEvent>, size: nat, available: nat)
    requires StillReading(events, size, available)
    ensures Offered(events) < size || available < size
  {
    if events != [] && !events[|events| - 1].Deliver? {
      ReadingOrClosed(events[..|events| - 1], size, available);
    }
  }

  /** Enough recv calls for a whole stream and its close, none of which fails. */
  predicate Generous(events: seq<RecvEvent>, stream: seq<byte>)
  {
    RecvFailed !in events && Deliveries(events) > |stream|
  }

  lemma NoDeliveries()
    ensures Deliveries([]) == 0
  {
  }

  /** Calls add up over a split of the script. */
  lemma {:induction false} DeliveriesConcat(a: seq<RecvEvent>, b: seq<RecvEvent>)
    ensures Deliveries(a + b) == Deliveries(a) + Deliveries(b)
  {
    if b == [] {
      assert a + b == a;
    } else {
      DeliveriesConcat(a, b[..|b| - 1]);
      assert (a + b)[..|a + b| - 1] == a + b[..|b| - 1];
    }
  }

  lemma FailedIn(a: seq<RecvEvent>, b: seq<RecvEvent>)
    ensures RecvFailed in a + b <==> RecvFailed in a || RecvFailed in b
  {
  }

  /** Calls and failures over a script that is split at i and again n calls later. */
  lemma CallsAddUp(events: seq<RecvEvent>, i: nat, n: nat)
    requires i + n <= |events|
    ensures Deliveries(events) == Deliveries(events[..i]) + Deliveries(events[i..])
    ensures Deliveries(events[..i + n]) == Deliveries(events[..i]) + Deliveries(events[i..][..n])
    ensures RecvFailed in events <==> RecvFailed in events[..i] || RecvFailed in events[i..]
    ensures RecvFailed in events[..i + n] <==> RecvFailed in events[..i] || RecvFailed in events[i..][..n]
    ensures n > 0 ==> events[i..][n - 1] == events[i + n - 1] && events[i + n - 1] in events
  {
    hide Deliveries;
    var a, b, c := events[..i], events[i..], events[i..][..n];
    assert events == a + b;
    assert events[..i + n] == a + c;
    DeliveriesConcat(a, b);
    DeliveriesConcat(a, c);
    FailedIn(a, b);
    FailedIn(a, c);
  }

  function Min(a: nat, b: nat): (m: nat)
  {
    if a <= b then a else b
  }

  /** read_exact. Whatever the chunking, the buffer receives the next bytes of the stream in order; the read goes on
      exactly until it is complete, the peer's close is seen, or a call fails. */
  method ReadExact(conn: Connection, buffer: array<byte>, events: seq<RecvEvent>)
    returns (r: ReadResult, used: nat)
    modifies conn, buffer
    ensures used <= |events|
    ensures ReadsUntil(events, buffer.Length, |old(conn.pending)|, r, used)
    ensures r == ReadOk ==> |old(conn.pending)| >= buffer.Length
                            && buffer[..] == old(conn.pending)[..buffer.Length]
                            && conn.pending == old(conn.pending)[buffer.Length..]
    ensures r == PeerClosed ==> |old(conn.pending)| < buffer.Length
    ensures r == ReadError ==> used > 0 && events[used - 1] == RecvFailed
    ensures r == ReadPending ==> used == |events| && RecvFailed !in events
                                 && Deliveries(events) <= |old(conn.pending)| && Deliveries(events) < buffer.Length
    ensures RecvFailed !in events
            && (Deliveries(events) >= buffer.Length || Deliveries(events) > |old(conn.pending)|) ==>
              r == if |old(conn.pending)| >= buffer.Length then ReadOk else PeerClosed
  {
    r, used := ReadChunks(conn, buffer, events);
    ReadProgress(events, buffer.Length, |old(conn.pending)|, r, used);
  }

  /** The loop of read_exact. */
  method ReadChunks(conn: Connection, buffer: array<byte>, events: seq<RecvEvent>)
    returns (r: ReadResult, used: nat)
    modifies conn, buffer
    ensures used <= |events|
    ensures ReadsUntil(events, buffer.Length, |old(conn.pending)|, r, used)
    ensures r == ReadOk ==> |old(conn.pending)| >= buffer.Length
                            && buffer[..] == old(conn.pending)[..buffer.Length]
                            && conn.pending == old(conn.pending)[buffer.Length..]
  {
    hide StillReading, Offered;
    var total := 0;
    used := 0;
    r := ReadOk;
    ghost var available := |conn.pending|;
    NothingRead(buffer.Length, available);
    assert events[..0] == [];
    while total < buffer.Length
      invariant total <= buffer.Length && total <= available && used <= |events|
      invariant buffer[..total] == old(conn.pending)[..total]
      invariant conn.pending == old(conn.pending)[total..]
      invariant total == Min(Offered(events[..used]), Min(available, buffer.Length))
      invariant total < buffer.Length ==> StillReading(events[..used], buffer.Length, available)
      invariant total == buffer.Length ==> ReadsUntil(events, buffer.Length, available, ReadOk, used)
      decreases |events| - used
    {
      if used == |events| {
        assert events[..used] == events;
        return ReadPending, used;
      }
      var event := events[used];
      NextCall(events, used, buffer.Length, available);
      used := used + 1;
      match event {
        case RecvInterrupted =>
        case RecvFailed =>
          return ReadError, used;
        case Deliver(n) =>
          if conn.pending == [] {
            return PeerClosed, used;
          }
          var k := Chunk(n, buffer.Length - total, |conn.pending|);
          forall i | 0 <= i < k {
            buffer[total + i] := conn.pending[i];
          }
          conn.pending := conn.pending[k..];
          total := total + k;
      }
    }
  }

  lemma NothingRead(size: nat, available: nat)
    ensures Offered([]) == 0 && (size > 0 ==> StillReading([], size, available))
  {
  }

  /** What one more call does to a read that goes on. */
  lemma NextCall(events: seq<RecvEvent>, used: nat, size: nat, available: nat)
    requires used < |events| && StillReading(events[..used], size, available)
    ensures var before, after, event := Offered(events[..used]), Offered(events[..used + 1]), events[used];
            && (!event.Deliver? ==> after == before)
            && (event.Deliver? ==> after == before + if event.n > 0 then event.n else 1)
            && (StillReading(events[..used + 1], size, available)
                <==> || event.RecvInterrupted?
                     || (event.Deliver? && before < available && (after < size || available < size)))
  {
    assert events[..used + 1][..used] == events[..used];
  }

  /** How many bytes one recv hands over. */
  function Chunk(n: nat, space: nat, available: nat): (k: nat)
    requires space > 0 && available > 0
    ensures 1 <= k <= space && k <= available
  {
    if n == 0 then 1
    else if n <= space && n <= available then n
    else if space <= available then space
    else available
  }

  // ---------------------------------------------------------------- what a session means

  datatype Received = Received(header: FrameHeader, payload: seq<byte>)

  /** Why the frame loop of a session ended. */
  datatype SessionEnd = PeerLeft | Truncated | HeaderRejected | CrcRejected | FrameLimit

  predicate Fatal(e: SessionEnd)
  {
    e.HeaderRejected? || e.CrcRejected?
  }

  datatype Session = Session(frames: seq<Received>, end: SessionEnd)

  predicate AtLimit(maxFrames: int, received: nat)
  {
    maxFrames > 0 && received >= maxFrames
  }

  /** What the head of a byte stream holds: one acceptable frame, or a reason to stop. */
  datatype Head = Next(frame: Received, rest: seq<byte>) | Stop(end: SessionEnd)

  function TakeFrame(stream: seq<byte>, limit: u32): (r: Head)
    ensures r.Next? ==> |r.rest| < |stream|
  {
    if |stream| < WIRE_HEADER_SIZE then Stop(PeerLeft)
    else
      var header := Decode(stream[..WIRE_HEADER_SIZE]);
      var rest := stream[WIRE_HEADER_SIZE..];
      if ValidateHeader(header, limit) != Accepted then Stop(HeaderRejected)
      else if |rest| < header.payloadSize then Stop(Truncated)
      else if Checksum(rest[..header.payloadSize]) != header.payloadCrc32 then Stop(CrcRejected)
      else Next(Received(header, rest[..header.payloadSize]), rest[header.payloadSize..])
  }

  /** The frames in a byte stream, cut without any notion of chunks: the meaning of a session
      that starts with `received` frames already counted. */
  function Parse(stream: seq<byte>, limit: u32, maxFrames: int, received: nat): (s: Session)
    decreases |stream|
  {
    if AtLimit(maxFrames, received) then Session([], FrameLimit)
    else
      match TakeFrame(stream, limit)
      case Stop(end) => Session([], end)
      case Next(frame, rest) =>
        var tail := Parse(rest, limit, maxFrames, received + 1);
        Session([frame] + tail.frames, tail.end)
  }

  lemma ParseStep(stream: seq<byte>, limit: u32, maxFrames: int, received: nat)
    ensures Parse(stream, limit, maxFrames, received)
         == if AtLimit(maxFrames, received) then Session([], FrameLimit)
            else if TakeFrame(stream, limit).Stop? then Session([], TakeFrame(stream, limit).end)
            else
              var head := TakeFrame(stream, limit);
              var tail := Parse(head.rest, limit, maxFrames, received + 1);
              Session([head.frame] + tail.frames, tail.end)
  {
  }

  /** A frame the receiver may count: validated, of the promised size, with the promised checksum. */
  predicate Sound(r: Received, limit: u32)
  {
    WellFormed(r.header, limit) && |r.payload| == r.header.payloadSize && Checksum(r.payload) == r.header.payloadCrc32
  }

  lemma TakenFrameIsSound(stream: seq<byte>, limit: u32)
    ensures TakeFrame(stream, limit).Next? ==> Sound(TakeFrame(stream, limit).frame, limit)
  {
    hide Checksum, Decode;
    if |stream| >= WIRE_HEADER_SIZE {
      ValidateIff(Decode(stream[..WIRE_HEADER_SIZE]), limit);
    }
  }

  /** Every frame that a session yields is sound, and the frame limit is kept. */
  lemma {:induction false} ParsedFramesAreSound(stream: seq<byte>, limit: u32, maxFrames: int, received: nat)
    ensures forall r :: r in Parse(stream, limit, maxFrames, received).frames ==> Sound(r, limit)
    ensures maxFrames > 0 && received <= maxFrames ==>
              received + |Parse(stream, limit, maxFrames, received).frames| <= maxFrames
    decreases |stream|
  {
    hide TakeFrame, Sound;
    TakenFrameIsSound(stream, limit);
    if !AtLimit(maxFrames, received) && TakeFrame(stream, limit).Next? {
      ParsedFramesAreSound(TakeFrame(stream, limit).rest, limit, maxFrames, received + 1);
    }
  }

  /** The sessions the program serves, in order: until the session or frame limit, or a protocol error. */
  datatype Service = Service(frames: seq<Received>, ends: seq<SessionEnd>)

  function Serve(streams: seq<seq<byte>>, limit: u32, maxFrames: int, sessions: nat, received: nat): (s: Service)
    decreases |streams|
  {
    if streams == [] || sessions == 0 || AtLimit(maxFrames, received) then Service([], [])
    else
      var first := Parse(streams[0], limit, maxFrames, received);
      if Fatal(first.end) then Service(first.frames, [first.end])
      else
        var later := Serve(streams[1..], limit, maxFrames, sessions - 1, received + |first.frames|);
        Service(first.frames + later.frames, [first.end] + later.ends)
  }

  lemma ServeStep(streams: seq<seq<byte>>, limit: u32, maxFrames: int, sessions: nat, received: nat)
    ensures Serve(streams, limit, maxFrames, sessions, received)
         == if streams == [] || sessions == 0 || AtLimit(maxFrames, received) then Service([], [])
            else
              var first := Parse(streams[0], limit, maxFrames, received);
              if Fatal(first.end) then Service(first.frames, [first.end])
              else
                var later := Serve(streams[1..], limit, maxFrames, sessions - 1, received + |first.frames|);
                Service(first.frames + later.frames, [first.end] + later.ends)
  {
    hide Parse;
  }

  function Count(ends: seq<SessionEnd>, e: SessionEnd): (n: nat)
  {
    multiset(ends)[e]
  }

  lemma NotBothRejected(ends: seq<SessionEnd>)
    requires Count(ends, HeaderRejected) + Count(ends, CrcRejected) <= 1
    ensures !(HeaderRejected in ends && CrcRejected in ends)
  {
  }

  lemma CountNone()
    ensures forall e :: Count([], e) == 0
  {
  }

  lemma CountCons(end: SessionEnd, ends: seq<SessionEnd>)
    ensures forall e :: Count([end] + ends, e) == Count(ends, e) + if e == end then 1 else 0
  {
    assert multiset([end] + ends) == multiset{end} + multiset(ends);
  }

  lemma CountSnoc(ends: seq<SessionEnd>, end: SessionEnd)
    ensures forall e :: Count(ends + [end], e) == Count(ends, e) + if e == end then 1 else 0
  {
    assert multiset(ends + [end]) == multiset(ends) + multiset{end};
  }

  /** Every session ends in exactly one of the five ways, so no more sessions complete than were served. */
  lemma {:induction false} EndsPartition(ends: seq<SessionEnd>)
    ensures Count(ends, PeerLeft) + Count(ends, Truncated) + Count(ends, HeaderRejected)
            + Count(ends, CrcRejected) + Count(ends, FrameLimit) == |ends|
  {
    if ends != [] {
      var n := |ends| - 1;
      EndsPartition(ends[..n]);
      CountSnoc(ends[..n], ends[n]);
      hide Count;
      assert ends == ends[..n] + [ends[n]];
    }
  }

  /** Over any clients the session and frame limits are kept. */
  lemma {:induction false} ServiceLimits(
      streams: seq<seq<byte>>, limit: u32, maxFrames: int, sessions: nat, received: nat)
    ensures var s := Serve(streams, limit, maxFrames, sessions, received);
            && |s.ends| <= sessions && |s.ends| <= |streams|
            && (maxFrames > 0 && received <= maxFrames ==> received + |s.frames| <= maxFrames)
    decreases |streams|
  {
    hide Parse;
    if streams != [] && sessions != 0 && !AtLimit(maxFrames, received) {
      var first := Parse(streams[0], limit, maxFrames, received);
      ParsedFramesAreSound(streams[0], limit, maxFrames, received);
      if !Fatal(first.end) {
        ServiceLimits(streams[1..], limit, maxFrames, sessions - 1, received + |first.frames|);
      }
    }
  }

  /** Why the program stops serving: no more clients, the session limit, the frame limit, or a protocol error. */
  lemma {:induction false} ServiceStops(
      streams: seq<seq<byte>>, limit: u32, maxFrames: int, sessions: nat, received: nat)
    ensures var s := Serve(streams, limit, maxFrames, sessions, received);
            || |s.ends| == |streams| || |s.ends| == sessions
            || AtLimit(maxFrames, received + |s.frames|)
            || (s.ends != [] && Fatal(s.ends[|s.ends| - 1]))
    decreases |streams|
  {
    hide Parse;
    if streams != [] && sessions != 0 && !AtLimit(maxFrames, received) {
      var first := Parse(streams[0], limit, maxFrames, received);
      if !Fatal(first.end) {
        ServiceStops(streams[1..], limit, maxFrames, sessions - 1, received + |first.frames|);
      }
    }
  }

  /** At most one session ends in a protocol error, and it is the last one served. */
  lemma {:induction false} FatalSessionIsLast(
      streams: seq<seq<byte>>, limit: u32, maxFrames: int, sessions: nat, received: nat)
    ensures var ends := Serve(streams, limit, maxFrames, sessions, received).ends;
            && (forall i :: 0 <= i < |ends| - 1 ==> !Fatal(ends[i]))
            && Count(ends, HeaderRejected) + Count(ends, CrcRejected) <= 1
    decreases |streams|
  {
    hide Parse, Count;
    CountNone();
    if streams != [] && sessions != 0 && !AtLimit(maxFrames, received) {
      var first := Parse(streams[0], limit, maxFrames, received);
      CountSnoc([], first.end);
      assert [] + [first.end] == [first.end];
      if !Fatal(first.end) {
        FatalSessionIsLast(streams[1..], limit, maxFrames, sessions - 1, received + |first.frames|);
        CountCons(first.end, Serve(streams[1..], limit, maxFrames, sessions - 1, received + |first.frames|).ends);
      }
    }
  }

  // ---------------------------------------------------------------- the program

  /** One client: the bytes it delivers and how recv hands them over. */
  datatype Client = Client(stream: seq<byte>, events: seq<RecvEvent>)

  datatype AcceptEvent = ClientConnected(client: Client) | AcceptInterrupted | AcceptFailed

  datatype Config = Config(maxFrames: int, maxSessions: nat, maxPayloadBytes: u32, savePayloads: bool)

  /** How the frame loop was left: with a session end, by an exception, or not yet. */
  datatype LoopExit = Ended(end: SessionEnd) | Threw | Waiting

  datatype ProgramExit = ExitCode(code: int) | StillRunning

  function PayloadBytes(frames: seq<Received>): (n: nat)
  {
    if frames == [] then 0 else PayloadBytes(frames[..|frames| - 1]) + |frames[|frames| - 1].payload|
  }

  /** How many frames were stamped after the receiver's own clock reading. */
  function ClockErrors(frames: seq<Received>, clock: nat -> u64): (n: nat)
  {
    if frames == [] then 0
    else
      var k := |frames| - 1;
      ClockErrors(frames[..k], clock) + (if clock(k) < frames[k].header.captureTimestampNs then 1 else 0)
  }

  /** The latency samples: for every frame that was not stamped after the clock reading, the difference in
      microseconds. */
  function LatenciesOf(frames: seq<Received>, clock: nat -> u64): (s: seq<real>)
    ensures |s| + ClockErrors(frames, clock) == |frames|
  {
    if frames == [] then []
    else
      var k := |frames| - 1;
      var sent := frames[k].header.captureTimestampNs;
      LatenciesOf(frames[..k], clock) + if clock(k) < sent then [] else [LatencyUs(clock(k), sent)]
  }

  function LatencyUs(now: u64, sent: u64): (us: real)
    requires sent <= now
    ensures us >= 0.0 && us * 1000.0 == (now - sent) as real
  {
    (now - sent) as real / 1000.0
  }

  lemma OneMorePayload(frames: seq<Received>, r: Received)
    ensures PayloadBytes(frames + [r]) == PayloadBytes(frames) + |r.payload|
  {
    assert (frames + [r])[..|frames|] == frames;
  }

  lemma OneMoreClockError(frames: seq<Received>, r: Received, clock: nat -> u64)
    ensures ClockErrors(frames + [r], clock)
         == ClockErrors(frames, clock) + if clock(|frames|) < r.header.captureTimestampNs then 1 else 0
  {
    assert (frames + [r])[..|frames|] == frames;
  }

  lemma OneMoreLatency(frames: seq<Received>, r: Received, clock: nat -> u64)
    ensures var now, sent := clock(|frames|), r.header.captureTimestampNs;
            LatenciesOf(frames + [r], clock)
            == LatenciesOf(frames, clock) + if now < sent then [] else [LatencyUs(now, sent)]
  {
    hide ClockErrors, LatencyUs;
    assert (frames + [r])[..|frames|] == frames;
  }

  lemma {:induction false} LatenciesAreNonNegative(frames: seq<Received>, clock: nat -> u64)
    ensures forall x :: x in LatenciesOf(frames, clock) ==> x >= 0.0
  {
    if frames != [] {
      LatenciesAreNonNegative(frames[..|frames| - 1], clock);
    }
  }

  /** One turn of the frame loop up to the checksum comparison. */
  datatype Step = Frame(frame: Received) | SessionOver(end: SessionEnd) | StepThrew | StepWaiting

  /** Whatever the chunking, one turn takes the frame that the stream starts with, or stops for the
      reason that the stream gives. */
  method ReadFrame(conn: Connection, limit: u32, events: seq<RecvEvent>)
    returns (step: Step, used: nat, buffer: nat)
    modifies conn
    ensures used <= |events| && buffer <= limit
    ensures step.Frame? ==> TakeFrame(old(conn.pending), limit) == Next(step.frame, conn.pending)
    ensures step.SessionOver? ==> TakeFrame(old(conn.pending), limit) == Stop(step.end)
    ensures step.StepThrew? ==> used > 0 && events[used - 1] == RecvFailed
    ensures step.StepWaiting? ==> RecvFailed !in events && Deliveries(events) <= |old(conn.pending)|
    ensures step.Frame? ==> Deliveries(events[..used]) <= |old(conn.pending)| - |conn.pending|
    ensures step.Frame? ==> RecvFailed !in events[..used]
  {
    hide Decode, Encode, Checksum, ValidateHeader, Deliveries;
    buffer := 0;
    var r, wire;
    r, wire, used := ReadBuffer(conn, WIRE_HEADER_SIZE, events);
    if r == PeerClosed { return SessionOver(PeerLeft), used, buffer; }
    if r == ReadError { return StepThrew, used, buffer; }
    if r == ReadPending { return StepWaiting, used, buffer; }

    // deserialize_header only fails on a wrong size, and the buffer has the right one.
    var decoded := DeserializeHeader(Some(wire));
    DecodeEncode(decoded.header);
    var header := decoded.header;
    if ValidateHeader(header, limit) != Accepted {
      return SessionOver(HeaderRejected), used, buffer;
    }
    AcceptedWithinLimit(header, limit);

    buffer := header.payloadSize;
    var payload, n;
    r, payload, n := ReadBuffer(conn, header.payloadSize, events[used..]);
    CallsAddUp(events, used, n);
    used := used + n;
    if r == PeerClosed { return SessionOver(Truncated), used, buffer; }
    if r == ReadError { return StepThrew, used, buffer; }
    if r == ReadPending { return StepWaiting, used, buffer; }

    var crc := ComputeCrc32(payload);
    if crc != header.payloadCrc32 {
      return SessionOver(CrcRejected), used, buffer;
    }
    step := Frame(Received(header, payload));
  }

  /** read_exact into a new buffer of the given size. */
  method ReadBuffer(conn: Connection, size: nat, events: seq<RecvEvent>)
    returns (r: ReadResult, bytes: seq<byte>, used: nat)
    modifies conn
    ensures used <= |events| && |bytes| == size
    ensures r == ReadOk ==> |old(conn.pending)| >= size && bytes == old(conn.pending)[..size]
                            && conn.pending == old(conn.pending)[size..]
    ensures r == ReadOk ==> Deliveries(events[..used]) <= size && RecvFailed !in events[..used]
    ensures r == PeerClosed ==> |old(conn.pending)| < size
    ensures r == ReadError ==> used > 0 && events[used - 1] == RecvFailed
    ensures r == ReadPending ==> RecvFailed !in events && Deliveries(events) <= |old(conn.pending)|
  {
    hide Deliveries, StillReading, Offered, ReadsUntil;
    var buffer := new byte[size];
    r, used := ReadExact(conn, buffer, events);
    ReadProgress(events, size, |old(conn.pending)|, r, used);
    bytes := buffer[..];
  }

  class Receiver {
    const cfg: Config
    var receivedFrames: nat
    var receivedBytes: nat
    var savedFiles: nat
    var crcErrors: nat
    var headerErrors: nat
    var rejectedFrames: nat
    var acceptedSessions: nat
    var completedSessions: nat
    var peerDisconnects: nat
    var latencyClockErrors: nat
    var latencySamples: seq<real>
    var largestBuffer: nat          // the largest payload buffer allocated so far
    ghost var frames: seq<Received> // the frames counted so far
    ghost var ends: seq<SessionEnd> // how the finished sessions ended
    ghost var clock: nat -> u64     // the clock reading after the k-th frame

    /** Every counter is a function of the frames received and of how the sessions ended. */
    ghost predicate Valid()
      reads this
    {
      && receivedFrames == |frames|
      && receivedBytes == PayloadBytes(frames)
      && latencyClockErrors == ClockErrors(frames, clock)
      && latencySamples == LatenciesOf(frames, clock)
      && receivedFrames == |latencySamples| + latencyClockErrors
      && (forall x :: x in latencySamples ==> x >= 0.0)
      && largestBuffer <= cfg.maxPayloadBytes
      && headerErrors == Count(ends, HeaderRejected)
      && crcErrors == Count(ends, CrcRejected)
      && rejectedFrames == headerErrors + crcErrors
      && peerDisconnects == Count(ends, PeerLeft) + Count(ends, Truncated)
      && completedSessions == Count(ends, PeerLeft) + Count(ends, FrameLimit)
    }

    ghost predicate AllSaved()
      reads this
    {
      savedFiles == if cfg.savePayloads then receivedFrames else 0
    }

    constructor (cfg: Config, ghost clock: nat -> u64)
      ensures Valid() && AllSaved() && this.cfg == cfg && this.clock == clock
      ensures frames == [] && receivedFrames == 0 && ends == [] && acceptedSessions == 0
    {
      this.cfg := cfg;
      this.clock := clock;
      receivedFrames, receivedBytes, savedFiles, crcErrors, headerErrors, rejectedFrames := 0, 0, 0, 0, 0, 0;
      acceptedSessions, completedSessions, peerDisconnects, latencyClockErrors := 0, 0, 0, 0;
      latencySamples, largestBuffer := [], 0;
      frames, ends := [], [];
    }

    /** A frame with a matching checksum: latency or clock error, then the counters. */
    method CountFrame(header: FrameHeader, payload: seq<byte>, now: u64)
      requires Valid() && now == clock(receivedFrames)
      modifies this`receivedFrames, this`receivedBytes, this`latencySamples, this`latencyClockErrors, this`frames
      ensures Valid()
      ensures frames == old(frames) + [Received(header, payload)] && receivedFrames == old(receivedFrames) + 1
      ensures receivedBytes == old(receivedBytes) + |payload|
      ensures if now >= header.captureTimestampNs
              then latencyClockErrors == old(latencyClockErrors) && |latencySamples| == |old(latencySamples)| + 1
                   && old(latencySamples) <= latencySamples
                   && latencySamples[|latencySamples| - 1] * 1000.0 == (now - header.captureTimestampNs) as real
              else latencyClockErrors == old(latencyClockErrors) + 1 && latencySamples == old(latencySamples)
    {
      hide PayloadBytes, ClockErrors, LatenciesOf, Count;
      OneMorePayload(frames, Received(header, payload));
      OneMoreClockError(frames, Received(header, payload), clock);
      OneMoreLatency(frames, Received(header, payload), clock);
      LatenciesAreNonNegative(frames + [Received(header, payload)], clock);
      frames := frames + [Received(header, payload)];
      if now >= header.captureTimestampNs {
        latencySamples := latencySamples + [LatencyUs(now, header.captureTimestampNs)];
      } else {
        latencyClockErrors := latencyClockErrors + 1;
      }
      receivedFrames := receivedFrames + 1;
      receivedBytes := receivedBytes + |payload|;
    }

    method NoteBuffer(length: nat)
      requires Valid() && length <= cfg.maxPayloadBytes
      modifies this`largestBuffer
      ensures Valid() && largestBuffer >= length && largestBuffer >= old(largestBuffer)
    {
      if length > largestBuffer {
        largestBuffer := length;
      }
    }

    /** Counts an accepted frame and saves its payload; false if the save threw. */
    method KeepFrame(frame: Received, clock: nat -> u64, saveFails: nat -> bool) returns (ok: bool)
      requires Valid() && AllSaved() && clock == this.clock
      modifies this`receivedFrames, this`receivedBytes, this`savedFiles, this`latencySamples,
               this`latencyClockErrors, this`frames
      ensures Valid()
      ensures frames == old(frames) + [frame] && receivedFrames == old(receivedFrames) + 1
      ensures ok ==> AllSaved()
      ensures ok <==> !(cfg.savePayloads && saveFails(receivedFrames))
    {
      CountFrame(frame.header, frame.payload, clock(receivedFrames));
      if cfg.savePayloads {
        if saveFails(receivedFrames) {
          return false;
        }
        savedFiles := savedFiles + 1;
      }
      ok := true;
    }

    method NoteAccepted()
      requires Valid()
      modifies this`acceptedSessions
      ensures Valid() && acceptedSessions == old(acceptedSessions) + 1
    {
      acceptedSessions := acceptedSessions + 1;
    }

    /** The frame loop of one session. Whatever the chunking and however it is left, it has counted a prefix of
        the frames that Parse finds in the stream; all of them, unless an exception ended it or the input is
        still incomplete. */
    method FrameLoop(conn: Connection, events: seq<RecvEvent>, clock: nat -> u64, saveFails: nat -> bool)
      returns (exit: LoopExit)
      requires Valid() && AllSaved() && clock == this.clock
      modifies conn, this`receivedFrames, this`receivedBytes, this`savedFiles, this`latencySamples,
               this`latencyClockErrors, this`largestBuffer, this`frames
      ensures Valid()
      ensures AllSaved() || exit == Threw
      ensures var s := Parse(old(conn.pending), cfg.maxPayloadBytes, cfg.maxFrames, old(receivedFrames));
              && Extends(old(frames), frames, s.frames)
              && receivedFrames == old(receivedFrames) + (|frames| - |old(frames)|)
              && (exit.Ended? ==> frames == old(frames) + s.frames && exit.end == s.end)
      ensures exit == Threw ==> RecvFailed in events || (cfg.savePayloads && saveFails(receivedFrames))
      ensures exit == Waiting ==> RecvFailed !in events && Deliveries(events) <= |old(conn.pending)|
      ensures Generous(events, old(conn.pending)) && !(cfg.savePayloads && saveFails(receivedFrames)) ==> exit.Ended?
    {
      hide TakeFrame, Valid, Parse, Extends, Deliveries;
      var used: nat := 0;
      ghost var whole := Parse(conn.pending, cfg.maxPayloadBytes, cfg.maxFrames, receivedFrames);
      ghost var got: seq<Received> := [];
      NoDeliveries();
      assert events[..0] == [];
      PrefixExtends(frames, got, whole.frames);
      assert frames + [] == frames && [] + whole.frames == whole.frames;
      ghost var rest := whole;
      while cfg.maxFrames <= 0 || receivedFrames < cfg.maxFrames
        invariant Valid() && AllSaved() && used <= |events|
        invariant frames == old(frames) + got && receivedFrames == old(receivedFrames) + |got|
        invariant Extends(old(frames), frames, whole.frames)
        invariant RecvFailed !in events[..used]
        invariant Deliveries(events[..used]) <= |old(conn.pending)| - |conn.pending|
        invariant rest == Parse(conn.pending, cfg.maxPayloadBytes, cfg.maxFrames, receivedFrames)
        invariant whole == Session(got + rest.frames, rest.end)
        decreases |conn.pending|
      {
        ParseStep(conn.pending, cfg.maxPayloadBytes, cfg.maxFrames, receivedFrames);
        var step, n, buffer := ReadFrame(conn, cfg.maxPayloadBytes, events[used..]);
        CallsAddUp(events, used, n);
        used := used + n;
        NoteBuffer(buffer);
        match step {
          case SessionOver(end) => return Ended(end);
          case StepThrew => return Threw;
          case StepWaiting => return Waiting;
          case Frame(frame) =>
            var kept := KeepFrame(frame, clock, saveFails);
            rest := Parse(conn.pending, cfg.maxPayloadBytes, cfg.maxFrames, receivedFrames);
            Regroup(got, [frame], rest.frames);
            Regroup(old(frames), got, [frame]);
            got := got + [frame];
            PrefixExtends(old(frames), got, rest.frames);
            if !kept {
              return Threw;
            }
        }
      }
      ParseStep(conn.pending, cfg.maxPayloadBytes, cfg.maxFrames, receivedFrames);
      exit := Ended(FrameLimit);
    }

    /** The counters that the end of a session touches. */
    method CloseSession(end: SessionEnd)
      requires Valid()
      modifies this`ends, this`headerErrors, this`crcErrors, this`rejectedFrames,
               this`peerDisconnects, this`completedSessions
      ensures Valid() && ends == old(ends) + [end]
    {
      CountSnoc(ends, end);
      hide Count, PayloadBytes, ClockErrors;
      ends := ends + [end];
      match end {
        case HeaderRejected => headerErrors, rejectedFrames := headerErrors + 1, rejectedFrames + 1;
        case CrcRejected => crcErrors, rejectedFrames := crcErrors + 1, rejectedFrames + 1;
        case Truncated => peerDisconnects := peerDisconnects + 1;
        case PeerLeft => peerDisconnects, completedSessions := peerDisconnects + 1, completedSessions + 1;
        case FrameLimit => completedSessions := completedSessions + 1;
      }
    }

    /** One accepted client, from the session counter to the close. */
    method ServeClient(client: Client, clock: nat -> u64, saveFails: nat -> bool) returns (left: LoopExit)
      requires Valid() && AllSaved() && clock == this.clock
      modifies this
      ensures Valid() && this.clock == old(this.clock) && acceptedSessions == old(acceptedSessions) + 1
      ensures var s := Parse(client.stream, cfg.maxPayloadBytes, cfg.maxFrames, old(receivedFrames));
              && Extends(old(frames), frames, s.frames)
              && receivedFrames == old(receivedFrames) + (|frames| - |old(frames)|)
              && (left.Ended? ==> AllSaved() && left.end == s.end
                                  && frames == old(frames) + s.frames && ends == old(ends) + [s.end])
              && (!left.Ended? ==> ends == old(ends))
      ensures left == Threw ==> RecvFailed in client.events || (cfg.savePayloads && saveFails(receivedFrames))
      ensures left == Waiting ==> RecvFailed !in client.events && !Generous(client.events, client.stream)
    {
      hide Parse, Valid, Deliveries;
      NoteAccepted();
      var conn := new Connection(client.stream);
      left := FrameLoop(conn, client.events, clock, saveFails);
      if left.Ended? {
        CloseSession(left.end);
      }
    }

    /** The session loop and the exit code. At every exit and whenever the program still waits, it has counted a
        prefix of the frames and finished a prefix of the sessions that Serve describes; if no exception ends
        the program, then it has served exactly those. */
    method Run(accepts: seq<AcceptEvent>, clock: nat -> u64, saveFails: nat -> bool) returns (exit: ProgramExit)
      requires Valid() && AllSaved() && clock == this.clock
      requires frames == [] && receivedFrames == 0 && ends == [] && acceptedSessions == 0
      modifies this
      ensures Valid()
      ensures exit == StillRunning || (exit.ExitCode? && exit.code in {0, 1, 2, 3})
      ensures var s := Serve(StreamsOf(accepts), cfg.maxPayloadBytes, cfg.maxFrames, cfg.maxSessions, 0);
              frames <= s.frames && ends <= s.ends
      ensures exit.ExitCode? && exit.code != 1 ==>
                && AllSaved() && acceptedSessions == |ends|
                && Service(frames, ends)
                   == Serve(StreamsOf(accepts), cfg.maxPayloadBytes, cfg.maxFrames, cfg.maxSessions, 0)
                && (exit.code == 3 <==> HeaderRejected in ends)
                && (exit.code == 2 <==> CrcRejected in ends)
      ensures exit == ExitCode(1) ==>
                || AcceptFailed in accepts
                || (exists a :: a in accepts && a.ClientConnected? && RecvFailed in a.client.events)
                || (cfg.savePayloads && saveFails(receivedFrames))
      ensures exit == StillRunning && AllGenerous(accepts) ==>
                && |ends| == |StreamsOf(accepts)| < cfg.maxSessions && !AtLimit(cfg.maxFrames, receivedFrames)
                && Service(frames, ends)
                   == Serve(StreamsOf(accepts), cfg.maxPayloadBytes, cfg.maxFrames, cfg.maxSessions, 0)
    {
      hide Parse, Valid, Serve, StreamsOf, Count, AllSaved, Generous;
      ghost var limit, maxFrames := cfg.maxPayloadBytes, cfg.maxFrames;
      ghost var whole := Serve(StreamsOf(accepts), limit, maxFrames, cfg.maxSessions, 0);
      ghost var rest := whole;
      var i := 0;
      assert accepts[0..] == accepts;
      while acceptedSessions < cfg.maxSessions && (cfg.maxFrames <= 0 || receivedFrames < cfg.maxFrames)
        invariant 0 <= i <= |accepts|
        invariant Valid() && AllSaved() && clock == this.clock && acceptedSessions == |ends| <= cfg.maxSessions
        invariant rest == Serve(StreamsOf(accepts[i..]), limit, maxFrames,
                                cfg.maxSessions - acceptedSessions, receivedFrames)
        invariant whole == Service(frames + rest.frames, ends + rest.ends)
        invariant |ends| + |StreamsOf(accepts[i..])| == |StreamsOf(accepts)|
        decreases |accepts| - i
      {
        if i == |accepts| {
          NoStreams(accepts, i);
          ServeStep(StreamsOf(accepts[i..]), limit, maxFrames, cfg.maxSessions - acceptedSessions, receivedFrames);
          assert frames + [] == frames && ends + [] == ends;
          return StillRunning;
        }
        StreamsStep(accepts, i);
        ServeStep(StreamsOf(accepts[i..]), limit, maxFrames, cfg.maxSessions - acceptedSessions, receivedFrames);
        var event := accepts[i];
        i := i + 1;
        match event {
          case AcceptInterrupted =>
          case AcceptFailed => return ExitCode(1);
          case ClientConnected(client) =>
            ghost var session := Parse(client.stream, limit, maxFrames, receivedFrames);
            ghost var frames0, ends0 := frames, ends;
            var left := ServeClient(client, clock, saveFails);
            ExtendsPrefix(frames0, frames, session.frames, rest.frames, whole.frames);
            if left.Threw? { return ExitCode(1); }
            if left.Waiting? { return StillRunning; }
            if Fatal(left.end) {
              rest := Service([], []);
              assert whole == Service(frames + rest.frames, ends + rest.ends);
              break;
            }
            rest := Serve(StreamsOf(accepts[i..]), limit, maxFrames,
                          cfg.maxSessions - acceptedSessions, receivedFrames);
            Regroup(frames0, session.frames, rest.frames);
            Regroup(ends0, [session.end], rest.ends);
        }
      }
      ServeStep(StreamsOf(accepts[i..]), limit, maxFrames, cfg.maxSessions - acceptedSessions, receivedFrames);
      assert rest == Service([], []);
      assert frames + [] == frames && ends + [] == ends;
      assert whole == Service(frames, ends);
      var code := FinalCode();
      FatalSessionIsLast(StreamsOf(accepts), limit, maxFrames, cfg.maxSessions, 0);
      NotBothRejected(ends);
      exit := ExitCode(code);
    }

    method FinalCode() returns (code: int)
      requires Valid()
      ensures code == if HeaderRejected in ends then 3 else if CrcRejected in ends then 2 else 0
    {
      if headerErrors > 0 {
        return 3;
      }
      if crcErrors > 0 {
        return 2;
      }
      code := 0;
    }
  }

  /** Some of the expected items, in order, were added. */
  predicate Extends<T(==)>(before: seq<T>, after: seq<T>, expected: seq<T>)
  {
    before <= after && after[|before|..] <= expected
  }

  lemma PrefixExtends<T>(before: seq<T>, got: seq<T>, rest: seq<T>)
    ensures Extends(before, before + got, got + rest)
  {
    assert (before + got)[|before|..] == got;
  }

  lemma ExtendsPrefix<T>(before: seq<T>, after: seq<T>, expected: seq<T>, rest: seq<T>, whole: seq<T>)
    requires Extends(before, after, expected) && expected <= rest && whole == before + rest
    ensures after <= whole
  {
    assert after == before + after[|before|..];
  }

  lemma Regroup<T>(a: seq<T>, b: seq<T>, c: seq<T>)
    ensures a + (b + c) == (a + b) + c
  {
  }

  /** The byte streams of the clients that connect, in order. */
  function StreamsOf(accepts: seq<AcceptEvent>): (s: seq<seq<byte>>)
  {
    if accepts == [] then []
    else
      (match accepts[0] case ClientConnected(client) => [client.stream] case _ => []) + StreamsOf(accepts[1..])
  }

  lemma StreamsStep(accepts: seq<AcceptEvent>, i: nat)
    requires i < |accepts|
    ensures StreamsOf(accepts[i..])
         == if accepts[i].ClientConnected? then [accepts[i].client.stream] + StreamsOf(accepts[i + 1..])
            else StreamsOf(accepts[i + 1..])
  {
    assert accepts[i..][1..] == accepts[i + 1..];
  }

  lemma NoStreams(accepts: seq<AcceptEvent>, i: nat)
    requires i == |accepts|
    ensures StreamsOf(accepts[i..]) == []
  {
  }

  /** Every client delivers its whole stream and closes. */
  predicate AllGenerous(accepts: seq<AcceptEvent>)
  {
    forall a :: a in accepts && a.ClientConnected? ==> Generous(a.client.events, a.client.stream)
  }

  lemma AcceptedWithinLimit(h: FrameHeader, limit: u32)
    requires ValidateHeader(h, limit) == Accepted
    ensures h.payloadSize <= limit
  {
    ValidateIff(h, limit);
  }
}
