/** When the two rings drop frames: exactly the capacities under which no run loses one. */
module Drops {
  import opened Frames
  import opened FrameProtocol
  import opened Pipeline
  import opened Schedules

  /** A ring that has room for every frame of the run has dropped none. */
  predicate Spacious(cfg: Config, sh: Shared)
  {
    && (cfg.ringCapacity >= cfg.frameCount ==> sh.ring.dropped == 0)
    && (cfg.tcpCapacity >= cfg.frameCount ==> sh.tcpRing.dropped == 0)
  }

  /** The producer never pushes into a ring that already holds frame_count frames. */
  lemma RoomForCaptured(cfg: Config, s: State)
    requires Control(cfg, s) && CaptureBalance(s.sh, s.p, s.c) && s.p.pc.PPush?
    ensures |s.sh.ring.items| < cfg.frameCount && s.sh.ring.capacity == cfg.ringCapacity
  {
    hide ConsumerControl, SenderControl, Verdict, Uncounted;
  }

  lemma ProducerKeepsSpacious(cfg: Config, s: State, s': State)
    requires Control(cfg, s) && CaptureBalance(s.sh, s.p, s.c) && Spacious(cfg, s.sh)
    requires s.sh.Valid() && ProducerStep(cfg, s.sh, s.p, s'.sh, s'.p)
    ensures Spacious(cfg, s'.sh)
  {
    hide Control, CaptureBalance;
    if s.p.pc.PPush? {
      RoomForCaptured(cfg, s);
    }
  }

  /** The consumer never queues a frame behind frame_count queued ones. */
  lemma RoomForQueued(cfg: Config, s: State)
    requires Control(cfg, s) && Conserved(cfg, s) && s.c.pc.CPush? && cfg.tcpEnabled
    ensures |s.sh.tcpRing.items| < cfg.frameCount && s.sh.tcpRing.capacity == cfg.tcpCapacity
  {
    hide ConsumerControl, Verdict, LogBalance;
  }

  lemma ConsumerKeepsSpacious(cfg: Config, s: State, s': State)
    requires Control(cfg, s) && Conserved(cfg, s) && Spacious(cfg, s.sh)
    requires s.sh.Valid() && ConsumerStep(cfg, s.sh, s.c, s'.sh, s'.c)
    ensures Spacious(cfg, s'.sh)
  {
    hide Control, Conserved, IsUsable;
    if s.c.pc.CPush? && cfg.tcpEnabled {
      RoomForQueued(cfg, s);
    }
  }

  lemma SenderKeepsSpacious(cfg: Config, sh: Shared, t: Sender, sh': Shared, t': Sender)
    requires sh.Valid() && Spacious(cfg, sh) && SenderStep(sh, t, sh', t')
    ensures Spacious(cfg, sh')
  {
    hide SenderStep;
    SenderMoves(sh, t, sh', t');
  }

  lemma {:induction false} RunIsSpacious(cfg: Config, run: seq<State>, i: nat)
    requires IsRun(cfg, run) && i < |run|
    ensures Spacious(cfg, run[i].sh)
  {
    hide Control, Conserved, Ordered, Flow, Screened, Framed, ProducerStep, ConsumerStep, SenderStep;
    if i > 0 {
      var s, s' := run[i - 1], run[i];
      RunIsSpacious(cfg, run, i - 1);
      RunHasInv(cfg, run, i - 1);
      assert Step(cfg, s, s');
      hide Spacious;
      if ProducerStep(cfg, s.sh, s.p, s'.sh, s'.p) {
        assert CaptureBalance(s.sh, s.p, s.c) by { CapturePart(cfg, s); }
        ProducerKeepsSpacious(cfg, s, s');
      } else if ConsumerStep(cfg, s.sh, s.c, s'.sh, s'.c) {
        ConsumerKeepsSpacious(cfg, s, s');
      } else {
        SenderKeepsSpacious(cfg, s.sh, s.t, s'.sh, s'.t);
      }
    }
  }

  lemma CapturePart(cfg: Config, s: State)
    requires Conserved(cfg, s)
    ensures CaptureBalance(s.sh, s.p, s.c)
  {
  }

  /** On a normal return every queued frame was sent. */
  ghost predicate SendsAllQueued(cfg: Config)
  {
    forall run, s :: Joined(cfg, run, s) && Verdict(s) == ReturnsNormally ==> s.c.queued == s.t.sent
  }

  /** On a normal return every captured frame was consumed. */
  ghost predicate ConsumesAllCaptured(cfg: Config)
  {
    forall run, s :: Joined(cfg, run, s) && Verdict(s) == ReturnsNormally ==> s.p.captured == s.c.consumed
  }

  lemma JoinedIsSpacious(cfg: Config, run: seq<State>, s: State)
    requires Joined(cfg, run, s) && Verdict(s) == ReturnsNormally
    ensures cfg.ringCapacity >= cfg.frameCount ==> s.p.captured == s.c.consumed
    ensures cfg.tcpEnabled && cfg.tcpCapacity >= cfg.frameCount ==> s.c.queued == s.t.sent
  {
    hide Init, Step;
    RunIsSpacious(cfg, run, |run| - 1);
    NormalReturnIsComplete(cfg, run, s);
  }

  /** A small YUYV frame that is usable and sendable. */
  const SAMPLE: Frame := Frame([16, 128, 16, 128], 2, 1, PIX_FMT_YUYV, 4, 0, 0, 0, 1)

  lemma SampleIsGood()
    ensures IsUsable(SAMPLE) && Sendable(SAMPLE)
  {
  }

  /** The quality script expects tcp_queued == tcp_sent of every successful run. The code keeps this
      promise exactly when the TCP queue can hold all requested frames. */
  lemma SendsAllQueuedIff(cfg: Config)
    requires ValidConfig(cfg) && cfg.tcpEnabled
    ensures SendsAllQueued(cfg) <==> cfg.tcpCapacity >= cfg.frameCount
  {
    hide Joined, IsUsable;
    if cfg.tcpCapacity >= cfg.frameCount {
      forall run, s | Joined(cfg, run, s) && Verdict(s) == ReturnsNormally ensures s.c.queued == s.t.sent {
        JoinedIsSpacious(cfg, run, s);
      }
    } else {
      SampleIsGood();
      var run, s := NormalRunExists(cfg, SAMPLE);
      assert Joined(cfg, run, s) && Verdict(s) == ReturnsNormally && s.c.queued != s.t.sent;
    }
  }

  /** The same for the capture ring. */
  lemma ConsumesAllCapturedIff(cfg: Config)
    requires ValidConfig(cfg) && cfg.tcpEnabled
    ensures ConsumesAllCaptured(cfg) <==> cfg.ringCapacity >= cfg.frameCount
  {
    hide Joined, IsUsable;
    if cfg.ringCapacity >= cfg.frameCount {
      forall run, s | Joined(cfg, run, s) && Verdict(s) == ReturnsNormally ensures s.p.captured == s.c.consumed {
        JoinedIsSpacious(cfg, run, s);
      }
    } else {
      SampleIsGood();
      var run, s := LateConsumerRunExists(cfg, SAMPLE);
      NormalReturnIsComplete(cfg, run, s);
      assert Joined(cfg, run, s) && Verdict(s) == ReturnsNormally && s.p.captured != s.c.consumed;
    }
  }

  /** A concrete failure of the script's expectation: two frames, a TCP queue for one. */
  lemma QueuedButNotSent() returns (cfg: Config, run: seq<State>, s: State)
    ensures cfg.frameCount == 2 && cfg.tcpCapacity == 1 && cfg.tcpEnabled
    ensures Joined(cfg, run, s) && Verdict(s) == ReturnsNormally && s.c.queued == 2 && s.t.sent == 1
  {
    hide Joined, IsUsable;
    cfg := Config(2, 1, 1, true, false, 0, false);
    SampleIsGood();
    run, s := NormalRunExists(cfg, SAMPLE);
  }
}
