/** The pipeline and the receiver together: what a whole run puts on the socket, any prefix of it on the
    way, and what the receiver counts. */
module EndToEnd {
  import opened Options
  import opened Bytes
  import opened FrameProtocol
  import opened Frames
  import opened TcpSend
  import opened TcpReceiver
  import opened Delivery
  import P = Pipeline

  /** In every state of every run, whatever part of the socket's bytes has arrived: the frames in it are a prefix
      of the completely sent ones, and those are usable captured frames, in capture order, each at most once. */
  lemma ArrivedFramesWereCaptured(cfg: P.Config, run: seq<P.State>, i: nat, delivered: seq<byte>,
                                  limit: u32, maxFrames: int)
    requires P.IsRun(cfg, run) && i < |run|
    requires delivered <= run[i].t.wire
    ensures var s := run[i];
            && AllSendable(P.FramesOf(s.t.log))
            && Parse(delivered, limit, maxFrames, 0).frames <= AllReceived(P.FramesOf(s.t.log))
            && P.Ordered(s.t.log, s.p.log) && P.AllUsable(s.t.log)
  {
    hide P.IsRun, P.Control, P.Conserved, P.Ordered, P.Flow, P.AllUsable, Parse, AllReceived, WireAll, Wire;
    var s := run[i];
    P.RunHasInv(cfg, run, i);
    P.SentPrefixOrdered(s);
    ReceivedIsPrefix(delivered, s.t.wire, P.Whole(s.t), P.Part(s.t), limit, maxFrames, 0);
  }

  /** The receiver's code behind any state of any run: for any delivered part of the socket's bytes, any chunking,
      any recv error and any failing save, ended or not, it has counted a prefix of the completely sent frames,
      which are usable captured frames in capture order; with enough recv calls and no failure it has ended with
      everything that the delivered bytes hold. */
  method ReceivedFramesWereCaptured(ghost cfg: P.Config, ghost run: seq<P.State>, ghost i: nat, delivered: seq<byte>,
                                    config: Config, events: seq<RecvEvent>, clock: nat -> u64, saveFails: nat -> bool)
    returns (count: nat, exit: LoopExit, ghost received: seq<Received>)
    requires P.IsRun(cfg, run) && i < |run|
    requires delivered <= run[i].t.wire
    ensures count <= |run[i].t.log|
    ensures var s := run[i];
            && AllSendable(P.FramesOf(s.t.log))
            && count == |received| && received <= AllReceived(P.FramesOf(s.t.log))
            && P.Ordered(s.t.log, s.p.log) && P.AllUsable(s.t.log)
    ensures Generous(events, delivered) && (forall k :: !saveFails(k)) ==>
              && exit.Ended?
              && Session(received, exit.end) == Parse(delivered, config.maxPayloadBytes, config.maxFrames, 0)
  {
    hide P.IsRun, P.Ordered, P.AllUsable, Parse, AllReceived, Generous;
    ArrivedFramesWereCaptured(cfg, run, i, delivered, config.maxPayloadBytes, config.maxFrames);
    var receiver := new Receiver(config, clock);
    var conn := new Connection(delivered);
    exit := receiver.FrameLoop(conn, events, clock, saveFails);
    count, received := receiver.receivedFrames, receiver.frames;
  }

  /** If run_pipeline returns normally and its whole stream arrives, the receiver counts the sent frames before the
      first header it does not accept, as far as its frame limit goes. If the usable frames that were captured fit
      the receiver, that is all of them up to the limit, and without a limit the session ends between frames. The
      number sent is what the drop and invalid counters leave over. */
  lemma NormalRunIsDelivered(cfg: P.Config, run: seq<P.State>, s: P.State, limit: u32, maxFrames: int)
    requires P.Joined(cfg, run, s) && P.Verdict(s) == P.ReturnsNormally && cfg.tcpEnabled
    ensures var sent := P.FramesOf(s.t.log);
            && AllSendable(sent)
            && Parse(s.t.wire, limit, maxFrames, 0) == Expected(sent, None, limit, maxFrames, 0)
            && |sent| == s.t.sent == cfg.frameCount - s.sh.ring.dropped - s.c.invalid - s.sh.tcpRing.dropped
            && ((forall f :: f in s.p.log && IsUsable(f) ==> FitsReceiver(f, limit)) ==>
                  var k := Kept(|sent|, maxFrames, 0);
                  Parse(s.t.wire, limit, maxFrames, 0)
                  == Session(AllReceived(sent[..k]), if AtLimit(maxFrames, k) then FrameLimit else PeerLeft))
  {
    hide P.Joined, P.Ordered, P.Flow, IsUsable, FitsReceiver, Parse, WireAll, Wire;
    hide ValidateHeader, HeaderOf, AllReceived;
    P.JoinedHasInv(cfg, run, s);
    P.NormalReturnIsComplete(cfg, run, s);
    P.SentPrefixOrdered(s);
    SessionIsExact(s.t.wire, P.Whole(s.t), None, limit, maxFrames, 0);
    if forall f :: f in s.p.log && IsUsable(f) ==> FitsReceiver(f, limit) {
      SentAreAccepted(s, limit);
    }
  }

  lemma SentAreAccepted(s: P.State, limit: u32)
    requires P.Ordered(s.t.log, s.p.log) && P.AllUsable(s.t.log) && AllSendable(P.FramesOf(s.t.log))
    requires forall f :: f in s.p.log && IsUsable(f) ==> FitsReceiver(f, limit)
    ensures Acceptable(P.FramesOf(s.t.log), limit) == |s.t.log|
  {
    hide IsUsable, FitsReceiver, ValidateHeader, HeaderOf, Acceptable;
    var frames := P.FramesOf(s.t.log);
    AcceptableIsFirst(frames, limit);
    var n := Acceptable(frames, limit);
    if n < |frames| {
      assert s.p.log[s.t.log[n].id] == frames[n];
      AcceptedIffFits(frames[n], limit);
    }
  }
}
