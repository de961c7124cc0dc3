/** Runs of the pipeline, put together from whole turns of the three loops: the results about normal
    returns speak of runs that exist, for every configuration. */
module Schedules {
  import opened Options
  import opened Frames
  import opened RingBuffers
  import opened TcpSend
  import opened Pipeline

  /** Some run leads to this state. */
  ghost predicate Reachable(cfg: Config, s: State)
  {
    exists run :: IsRun(cfg, run) && run[|run| - 1] == s
  }

  lemma StepReaches(cfg: Config, s: State, s': State)
    requires Reachable(cfg, s) && Step(cfg, s, s')
    ensures Reachable(cfg, s')
  {
    hide Init, Step;
    var run :| IsRun(cfg, run) && run[|run| - 1] == s;
    var longer := run + [s'];
    assert IsRun(cfg, longer) && longer[|longer| - 1] == s';
  }

  lemma InitReaches(cfg: Config, s: State)
    requires ValidConfig(cfg) && Init(cfg, s)
    ensures Reachable(cfg, s)
  {
    hide Init, Step;
    var run := [s];
    assert IsRun(cfg, run) && run[|run| - 1] == s;
  }

  lemma RunTo(cfg: Config, s: State) returns (run: seq<State>)
    requires Reachable(cfg, s) && AllExited(s)
    ensures Joined(cfg, run, s)
  {
    hide Init, Step;
    run :| IsRun(cfg, run) && run[|run| - 1] == s;
  }

  lemma ByProducer(cfg: Config, s: State, sh: Shared, p: Producer) returns (s': State)
    requires Reachable(cfg, s) && s.sh.Valid() && ProducerStep(cfg, s.sh, s.p, sh, p)
    ensures s' == s.(sh := sh, p := p) && Reachable(cfg, s')
  {
    hide ProducerStep, ConsumerStep, SenderStep, Reachable;
    s' := s.(sh := sh, p := p);
    StepReaches(cfg, s, s');
  }

  lemma ByConsumer(cfg: Config, s: State, sh: Shared, c: Consumer) returns (s': State)
    requires Reachable(cfg, s) && s.sh.Valid() && ConsumerStep(cfg, s.sh, s.c, sh, c)
    ensures s' == s.(sh := sh, c := c) && Reachable(cfg, s')
  {
    hide ProducerStep, ConsumerStep, SenderStep, Reachable;
    s' := s.(sh := sh, c := c);
    StepReaches(cfg, s, s');
  }

  lemma BySender(cfg: Config, s: State, sh: Shared, t: Sender) returns (s': State)
    requires Reachable(cfg, s) && s.sh.Valid() && SenderStep(s.sh, s.t, sh, t)
    ensures s' == s.(sh := sh, t := t) && Reachable(cfg, s')
  {
    hide ProducerStep, ConsumerStep, SenderStep, Reachable;
    s' := s.(sh := sh, t := t);
    StepReaches(cfg, s, s');
  }

  // ---------------------------------------------------------------- whole turns

  /** The producer captures one frame. */
  lemma ProduceOne(cfg: Config, s: State, f: Frame) returns (s': State)
    requires Reachable(cfg, s) && s.sh.Valid() && !s.sh.stop
    requires s.p.pc.PHead? && s.p.captured < cfg.frameCount
    ensures Reachable(cfg, s')
    ensures s' == s.(sh := s.sh.(ring := s.sh.ring.Push(Item(|s.p.log|, f))),
                     p := s.p.(captured := s.p.captured + 1, log := s.p.log + [f]))
  {
    hide Reachable, Queue.Push;
    s' := ByProducer(cfg, s, s.sh, s.p.(pc := PCapture));
    s' := ByProducer(cfg, s', s'.sh, s'.p.(pc := PPush(f)));
    s' := ByProducer(cfg, s', s'.sh.(ring := s.sh.ring.Push(Item(|s.p.log|, f))),
                     s'.p.(pc := PCount, log := s.p.log + [f]));
    s' := ByProducer(cfg, s', s'.sh, s'.p.(pc := PAfter, captured := s.p.captured + 1));
    s' := ByProducer(cfg, s', s'.sh, s'.p.(pc := PHead));
  }

  /** The producer has all its frames and ends. */
  lemma EndProducer(cfg: Config, s: State) returns (s': State)
    requires Reachable(cfg, s) && s.sh.Valid() && s.p.pc.PHead? && s.p.captured == cfg.frameCount
    ensures Reachable(cfg, s') && s' == s.(sh := s.sh.(producerDone := true), p := s.p.(pc := PExit))
  {
    hide Reachable;
    s' := ByProducer(cfg, s, s.sh, s.p.(pc := PDone));
    s' := ByProducer(cfg, s', s'.sh.(producerDone := true), s'.p.(pc := PExit));
  }

  /** The consumer reaches its pop. */
  lemma ReachPop(cfg: Config, s: State) returns (s': State)
    requires Reachable(cfg, s) && s.sh.Valid() && !s.sh.stop && s.c.pc.CHead? && s.sh.ring.items != []
    ensures Reachable(cfg, s') && s' == s.(c := s.c.(pc := CPop))
  {
    hide Reachable;
    s' := ByConsumer(cfg, s, s.sh, s.c.(pc := CReadDone));
    if s.sh.producerDone {
      s' := ByConsumer(cfg, s', s.sh, s'.c.(pc := CReadEmpty));
    }
    s' := ByConsumer(cfg, s', s.sh, s'.c.(pc := CPop));
  }

  /** The counters after the consumer has queued one more frame. */
  function Queued(cfg: Config, c: Consumer, f: Frame): (c': Consumer)
  {
    c.(consumed := c.consumed + 1, queued := c.queued + 1, seen := c.seen + [f],
       saved := c.saved + One(cfg.saving && c.saved < cfg.saveLimit))
  }

  /** The consumer moves the oldest frame of the capture ring to the TCP ring. */
  lemma ConsumeOne(cfg: Config, s: State) returns (s': State)
    requires Reachable(cfg, s) && s.sh.Valid() && !s.sh.stop && cfg.tcpEnabled
    requires s.c.pc.CHead? && s.sh.ring.items != [] && IsUsable(s.sh.ring.items[0].frame)
    ensures Reachable(cfg, s')
    ensures s' == s.(sh := s.sh.(ring := s.sh.ring.Pop(), tcpRing := s.sh.tcpRing.Push(s.sh.ring.items[0])),
                     c := Queued(cfg, s.c, s.sh.ring.items[0].frame))
  {
    hide Reachable, IsUsable, Queue.Push, Queue.Pop;
    var item := s.sh.ring.items[0];
    s' := ReachPop(cfg, s);
    s' := ByConsumer(cfg, s', s.sh.(ring := s.sh.ring.Pop()), s'.c.(pc := CCount(item)));
    s' := ByConsumer(cfg, s', s'.sh, s'.c.(pc := CCheck(item), consumed := s.c.consumed + 1,
                                                 seen := s.c.seen + [item.frame]));
    s' := ByConsumer(cfg, s', s'.sh, s'.c.(pc := CSave(item)));
    s' := ByConsumer(cfg, s', s'.sh, s'.c.(pc := CPush(item), saved := Queued(cfg, s.c, item.frame).saved));
    s' := ByConsumer(cfg, s', s'.sh.(tcpRing := s.sh.tcpRing.Push(item)), s'.c.(pc := CQueued));
    s' := ByConsumer(cfg, s', s'.sh, s'.c.(pc := CHead, queued := s.c.queued + 1));
  }

  /** The consumer sees an empty ring behind a finished producer and ends. */
  lemma EndConsumer(cfg: Config, s: State) returns (s': State)
    requires Reachable(cfg, s) && s.sh.Valid() && !s.sh.stop
    requires s.c.pc.CHead? && s.sh.producerDone && s.sh.ring.items == []
    ensures Reachable(cfg, s') && s' == s.(sh := s.sh.(consumerDone := true), c := s.c.(pc := CExit(0, 0)))
  {
    hide Reachable;
    s' := ByConsumer(cfg, s, s.sh, s.c.(pc := CReadDone));
    s' := ByConsumer(cfg, s', s.sh, s'.c.(pc := CReadEmpty));
    s' := ByConsumer(cfg, s', s.sh, s'.c.(pc := CDone));
    s' := ByConsumer(cfg, s', s.sh.(consumerDone := true), s'.c.(pc := CExit(0, 0)));
  }

  /** The sender's counters after one more frame. */
  function Sent(t: Sender, item: Item): (t': Sender)
    requires Sendable(item.frame)
  {
    t.(sent := t.sent + 1, wire := t.wire + Wire(item.frame), log := t.log + [item])
  }

  /** The sender sends the oldest queued frame in one call and counts it. */
  lemma SendAndCount(cfg: Config, s: State) returns (s': State)
    requires Reachable(cfg, s) && s.sh.Valid() && !s.sh.stop && s.sh.consumerDone
    requires s.t.pc.SHead? && s.sh.tcpRing.items != [] && Sendable(s.sh.tcpRing.items[0].frame)
    ensures Reachable(cfg, s')
    ensures s' == s.(sh := s.sh.(tcpRing := s.sh.tcpRing.Pop()),
                     t := Sent(s.t, s.sh.tcpRing.items[0]).(pc := SCounted))
  {
    hide Reachable, Queue.Pop, Wire;
    var item := s.sh.tcpRing.items[0];
    s' := BySender(cfg, s, s.sh, s.t.(pc := SReadEmpty));
    s' := BySender(cfg, s', s.sh, s'.t.(pc := SPop));
    s' := BySender(cfg, s', s.sh.(tcpRing := s.sh.tcpRing.Pop()), s'.t.(pc := SStart(item)));
    s' := BySender(cfg, s', s'.sh, s'.t.(pc := SCheck(item, 0)));
    s' := BySender(cfg, s', s'.sh, s'.t.(pc := SCall(item, 0)));
    var w := Wire(item.frame);
    assert w[0..|w|] == w;
    s' := BySender(cfg, s', s'.sh, s'.t.(pc := SSent, wire := s.t.wire + w, log := s.t.log + [item]));
    s' := BySender(cfg, s', s'.sh, s'.t.(pc := SCounted, sent := s.t.sent + 1));
  }

  /** And it goes on with its loop. */
  lemma SendOne(cfg: Config, s: State) returns (s': State)
    requires Reachable(cfg, s) && s.sh.Valid() && !s.sh.stop && s.sh.consumerDone
    requires s.t.pc.SHead? && s.sh.tcpRing.items != [] && Sendable(s.sh.tcpRing.items[0].frame)
    ensures Reachable(cfg, s')
    ensures s' == s.(sh := s.sh.(tcpRing := s.sh.tcpRing.Pop()), t := Sent(s.t, s.sh.tcpRing.items[0]))
  {
    hide Reachable, Queue.Pop, Wire;
    s' := SendAndCount(cfg, s);
    s' := BySender(cfg, s', s'.sh, s'.t.(pc := SHead));
  }

  /** Or its logging throws, and the frame is counted once more, as failed. */
  lemma FailAfterCount(cfg: Config, s: State) returns (s': State)
    requires Reachable(cfg, s) && s.sh.Valid() && s.t.pc.SCounted?
    ensures Reachable(cfg, s')
    ensures s' == s.(sh := s.sh.(stop := true),
                     t := s.t.(pc := SExit, failure := Some(SendError), recounted := true, errors := s.t.errors + 1))
  {
    hide Reachable;
    s' := BySender(cfg, s, s.sh, s.t.(pc := SFail, failure := Some(SendError), recounted := true));
    s' := BySender(cfg, s', s.sh, s'.t.(pc := SSetStop, errors := s.t.errors + 1));
    s' := BySender(cfg, s', s.sh.(stop := true), s'.t.(pc := SClose));
    s' := BySender(cfg, s', s'.sh, s'.t.(pc := SExit));
  }

  /** The sender sees an empty queue behind a finished consumer and ends. */
  lemma EndSender(cfg: Config, s: State) returns (s': State)
    requires Reachable(cfg, s) && s.sh.Valid() && s.t.pc.SHead? && s.sh.consumerDone && s.sh.tcpRing.items == []
    ensures Reachable(cfg, s') && s' == s.(t := s.t.(pc := SExit))
  {
    hide Reachable;
    s' := BySender(cfg, s, s.sh, s.t.(pc := SReadEmpty));
    s' := BySender(cfg, s', s.sh, s'.t.(pc := SClose));
    s' := BySender(cfg, s', s.sh, s'.t.(pc := SExit));
  }

  // ---------------------------------------------------------------- schedules

  /** Every item holds this frame. */
  predicate AllAre(items: seq<Item>, f: Frame)
  {
    forall i :: 0 <= i < |items| ==> items[i].frame == f
  }

  /** No thread has failed, the sender is at its loop head and both rings hold only copies of f. */
  predicate Smooth(cfg: Config, s: State, f: Frame)
  {
    && s.sh.Valid() && !s.sh.stop && !s.p.error && !s.c.error && !s.t.error && s.t.errors == 0
    && s.sh.ring.capacity == cfg.ringCapacity && s.sh.tcpRing.capacity == cfg.tcpCapacity
    && s.t.pc.SHead? && AllAre(s.sh.ring.items, f) && AllAre(s.sh.tcpRing.items, f)
  }

  function Min(a: nat, b: nat): (m: nat)
  {
    if a <= b then a else b
  }

  /** What a ring of this capacity looks like after n pushes and no pop. */
  predicate Filled(q: Queue<Item>, n: nat)
  {
    |q.items| == Min(n, q.capacity) && |q.items| + q.dropped == n
  }

  lemma Start(cfg: Config, f: Frame) returns (s: State)
    requires ValidConfig(cfg) && cfg.tcpEnabled
    ensures Reachable(cfg, s) && Init(cfg, s) && Smooth(cfg, s, f) && Filled(s.sh.ring, 0) && Filled(s.sh.tcpRing, 0)
  {
    hide Reachable;
    s := State(Shared(EmptyQueue(cfg.ringCapacity), EmptyQueue(cfg.tcpCapacity), false, false, false),
               Producer(PHead, 0, false, []), Consumer(CHead, 0, 0, 0, 0, false, []),
               Sender(SHead, 0, 0, 0, 0, false, None, false, [], None, []));
    InitReaches(cfg, s);
  }

  /** Producer and consumer take turns, the sender sleeps: the TCP ring fills up and drops the rest. */
  lemma {:induction false} TakeTurns(cfg: Config, f: Frame, k: nat) returns (s: State)
    requires ValidConfig(cfg) && cfg.tcpEnabled && IsUsable(f) && k <= cfg.frameCount
    ensures Reachable(cfg, s) && Smooth(cfg, s, f) && s.p.pc.PHead? && s.p.captured == k && s.c.pc.CHead?
    ensures s.sh.ring.items == [] && s.sh.ring.dropped == 0 && Filled(s.sh.tcpRing, k) && s.c.queued == k
  {
    hide Reachable, IsUsable;
    if k == 0 {
      s := Start(cfg, f);
    } else {
      s := TakeTurns(cfg, f, k - 1);
      s := ProduceOne(cfg, s, f);
      s := ConsumeOne(cfg, s);
    }
  }

  /** The producer runs alone: the capture ring fills up and drops the rest. */
  lemma {:induction false} ProduceFirst(cfg: Config, f: Frame, k: nat) returns (s: State)
    requires ValidConfig(cfg) && cfg.tcpEnabled && k <= cfg.frameCount
    ensures Reachable(cfg, s) && Smooth(cfg, s, f) && s.p.pc.PHead? && s.p.captured == k && s.c.pc.CHead?
    ensures Filled(s.sh.ring, k) && s.sh.tcpRing.dropped == 0
  {
    hide Reachable;
    if k == 0 {
      s := Start(cfg, f);
    } else {
      s := ProduceFirst(cfg, f, k - 1);
      s := ProduceOne(cfg, s, f);
    }
  }

  /** The consumer empties the capture ring. */
  lemma {:induction false} ConsumeAll(cfg: Config, s: State, f: Frame) returns (s': State)
    requires Reachable(cfg, s) && Smooth(cfg, s, f) && s.c.pc.CHead? && cfg.tcpEnabled && IsUsable(f)
    ensures Reachable(cfg, s') && Smooth(cfg, s', f) && s'.c.pc.CHead? && s'.p == s.p && s'.sh.ring.items == []
    ensures s'.sh.producerDone == s.sh.producerDone && s'.sh.ring.dropped == s.sh.ring.dropped
    ensures s.sh.ring.items == [] ==> s' == s
    decreases |s.sh.ring.items|
  {
    hide Reachable, IsUsable;
    if s.sh.ring.items == [] {
      s' := s;
    } else {
      s' := ConsumeOne(cfg, s);
      s' := ConsumeAll(cfg, s', f);
    }
  }

  /** The sender empties the TCP ring. */
  lemma {:induction false} SendAll(cfg: Config, s: State, f: Frame) returns (s': State)
    requires Reachable(cfg, s) && Smooth(cfg, s, f) && s.sh.consumerDone && Sendable(f)
    ensures Reachable(cfg, s') && Smooth(cfg, s', f) && s'.p == s.p && s'.c == s.c && s'.sh.tcpRing.items == []
    ensures s'.sh == s.sh.(tcpRing := s'.sh.tcpRing) && s'.sh.tcpRing.dropped == s.sh.tcpRing.dropped
    decreases |s.sh.tcpRing.items|
  {
    hide Reachable, Wire;
    if s.sh.tcpRing.items == [] {
      s' := s;
    } else {
      s' := SendOne(cfg, s);
      s' := SendAll(cfg, s', f);
    }
  }

  /** From any smooth state behind the last capture there is a normal return that drops nothing more from the
      capture ring, and nothing more from the TCP ring if the consumer has kept up. */
  lemma Complete(cfg: Config, s: State, f: Frame) returns (run: seq<State>, s': State)
    requires Reachable(cfg, s) && Smooth(cfg, s, f) && cfg.tcpEnabled && IsUsable(f) && Sendable(f)
    requires s.p.pc.PHead? && s.p.captured == cfg.frameCount && s.c.pc.CHead?
    ensures Joined(cfg, run, s') && Verdict(s') == ReturnsNormally
    ensures s'.sh.ring.dropped == s.sh.ring.dropped
    ensures s.sh.ring.items == [] ==> s'.sh.tcpRing.dropped == s.sh.tcpRing.dropped && s'.c.queued == s.c.queued
  {
    hide IsUsable, Reachable, IsRun;
    s' := EndProducer(cfg, s);
    s' := ConsumeAll(cfg, s', f);
    s' := EndConsumer(cfg, s');
    s' := SendAll(cfg, s', f);
    s' := EndSender(cfg, s');
    run := RunTo(cfg, s');
  }

  /** For every configuration with TCP and every usable, sendable frame there is a run that returns normally:
      all frames are queued, as many as the TCP ring holds are sent, the rest is dropped. */
  lemma NormalRunExists(cfg: Config, f: Frame) returns (run: seq<State>, s: State)
    requires ValidConfig(cfg) && cfg.tcpEnabled && IsUsable(f) && Sendable(f)
    ensures Joined(cfg, run, s) && Verdict(s) == ReturnsNormally
    ensures s.c.queued == cfg.frameCount && s.t.sent == Min(cfg.frameCount, cfg.tcpCapacity)
  {
    hide IsUsable, Joined;
    var turns := TakeTurns(cfg, f, cfg.frameCount);
    run, s := Complete(cfg, turns, f);
    NormalReturnIsComplete(cfg, run, s);
  }

  /** And one that drops everything from the capture ring that it cannot hold. */
  lemma LateConsumerRunExists(cfg: Config, f: Frame) returns (run: seq<State>, s: State)
    requires ValidConfig(cfg) && cfg.tcpEnabled && IsUsable(f) && Sendable(f)
    ensures Joined(cfg, run, s) && Verdict(s) == ReturnsNormally
    ensures s.c.consumed == Min(cfg.frameCount, cfg.ringCapacity)
  {
    hide IsUsable, Joined;
    var produced := ProduceFirst(cfg, f, cfg.frameCount);
    run, s := Complete(cfg, produced, f);
    NormalReturnIsComplete(cfg, run, s);
  }

  /** Without its term for a frame counted twice the queue equation can fail on an unsuccessful run: for every
      configuration there is one in which logging throws behind the first count, so that this frame is counted
      as sent and as failed. */
  lemma CountedTwiceRunExists(cfg: Config, f: Frame) returns (run: seq<State>, s: State)
    requires ValidConfig(cfg) && cfg.tcpEnabled && IsUsable(f) && Sendable(f)
    ensures Joined(cfg, run, s) && Verdict(s) == TransmissionFailed && s.t.recounted
    ensures s.c.queued + 1
         == s.t.sent + s.sh.tcpRing.dropped + |s.sh.tcpRing.items| + s.t.errors + s.t.cancellations
  {
    hide IsUsable, Reachable, IsRun, Wire;
    s := TakeTurns(cfg, f, cfg.frameCount);
    s := EndProducer(cfg, s);
    s := EndConsumer(cfg, s);
    s := SendAndCount(cfg, s);
    s := FailAfterCount(cfg, s);
    run := RunTo(cfg, s);
    ConservationAfterJoins(cfg, run, s);
  }
}
