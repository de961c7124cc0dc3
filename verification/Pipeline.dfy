/** The three threads of run_pipeline (src/main.cpp) as one step relation: producer, consumer and TCP
    sender share two rings, three atomic flags, the counters and the socket. Every locked ring operation,
    every atomic access and every counter update is a step of its own, steps of different threads
    interleave in any order, and memory is sequentially consistent. The camera, the disk, the socket and
    the clock act through the choices that the relation leaves open. */
module Pipeline {
  import opened Options
  import opened Bytes
  import opened Frames
  import opened RingBuffers
  import opened TcpSend

  datatype Config = Config(frameCount: nat, ringCapacity: nat, tcpCapacity: nat, tcpEnabled: bool,
                           saving: bool, saveLimit: nat, recoveryEnabled: bool)

  /** run_pipeline rejects anything else before it starts a thread. */
  predicate ValidConfig(cfg: Config)
  {
    cfg.frameCount > 0 && cfg.ringCapacity > 0 && cfg.tcpCapacity > 0
  }

  /** A frame together with its place in the capture order. */
  datatype Item = Item(id: nat, frame: Frame)

  /** Producer program points (src/main.cpp:813-946). */
  datatype ProducerPc =
    | PHead                      // about to test produced < frame_count and read stop_requested
    | PCapture                   // inside capture_frame_copy
    | PPush(frame: Frame)        // about to push the frame
    | PCount                     // about to count the pushed frame
    | PAfter                     // deciding about an invalid-frame recovery
    | PRebuild                   // head of the rebuild loop, about to read stop_requested
    | PRebuildFailed             // rebuild returned false, about to read stop_requested
    | PError                     // in the catch block, about to record the exception
    | PStop                      // about to set stop_requested
    | PDone                      // about to set producer_done
    | PExit

  /** Consumer program points (src/main.cpp:664-746). The error path remembers how many frames were
      popped but not counted, and counted but neither found invalid nor queued. */
  datatype ConsumerPc =
    | CHead | CReadDone | CReadEmpty | CPop | CWait
    | CCount(item: Item) | CCheck(item: Item) | CInvalid(item: Item) | CSave(item: Item) | CPush(item: Item)
    | CQueued | CDone
    | CError(uncounted: nat, unrouted: nat)
    | CErrDone(uncounted: nat, unrouted: nat)
    | CErrStop(uncounted: nat, unrouted: nat)
    | CExit(uncounted: nat, unrouted: nat)

  /** Sender program points (src/main.cpp:581-661 and src/tcp_send.cpp:84-163); n bytes of the frame are on
      the socket. */
  datatype SenderPc =
    | SHead | SReadEmpty | SPop | SWait
    | SStart(item: Item) | SCheck(item: Item, n: nat) | SCall(item: Item, n: nat) | SRecheck(item: Item, n: nat)
    | SSent       // every byte is on the socket; about to record the latency and count the frame
    | SCounted    // about to log
    | STimeout | STimeoutCounted | SFail | SSetStop | SCancel | SCancelled
    | SClose | SCatch | SCatchStop | SExit

  /** What the threads share: the rings and the three atomic flags. */
  datatype Shared = Shared(ring: Queue<Item>, tcpRing: Queue<Item>, producerDone: bool,
                           consumerDone: bool, stop: bool) {
    predicate Valid() {
      ring.Valid() && tcpRing.Valid()
    }
  }

  /** Every counter and exception slot has one writing thread, so it is kept with that thread. */
  datatype Producer = Producer(
    pc: ProducerPc,
    captured: nat,              // equals the thread's local `produced`
    error: bool,
    log: seq<Frame>)            // every frame pushed into the capture ring, in order

  datatype Consumer = Consumer(
    pc: ConsumerPc, consumed: nat, invalid: nat, saved: nat, queued: nat, error: bool,
    seen: seq<Frame>)           // every frame counted as consumed, in order

  datatype Sender = Sender(
    pc: SenderPc, sent: nat, errors: nat, timeouts: nat, cancellations: nat, error: bool,
    failure: Option<SendOutcome>,    // how the last send ended, if it was not successful
    recounted: bool,                 // the failed frame was counted as sent before it failed
    wire: seq<byte>,                 // everything the kernel took from this thread
    broken: Option<(Frame, nat)>,    // the frame whose send failed part way, if any
    log: seq<Item>)                  // every frame completely on the socket, in order; the first `sent` are counted

  datatype State = State(sh: Shared, p: Producer, c: Consumer, t: Sender)

  predicate Init(cfg: Config, s: State)
  {
    s == State(
      Shared(EmptyQueue(cfg.ringCapacity), EmptyQueue(cfg.tcpCapacity), false, false, false),
      Producer(PHead, 0, false, []),
      Consumer(CHead, 0, 0, 0, 0, false, []),
      Sender(if cfg.tcpEnabled then SHead else SExit, 0, 0, 0, 0, false, None, false, [], None, []))
  }

  // ---------------------------------------------------------------- steps

  predicate ProducerStep(cfg: Config, sh: Shared, p: Producer, sh': Shared, p': Producer)
    requires sh.Valid()
  {
    match p.pc
    case PHead =>
      sh' == sh && p' == p.(pc := if p.captured < cfg.frameCount && !sh.stop then PCapture else PDone)
    case PCapture =>
      && sh' == sh
      && p' == p.(pc := p'.pc)
      && (|| p'.pc.PPush?                            // a frame was captured
          || p'.pc.PHead?                            // a capture error that is tolerated
          || (p'.pc.PRebuild? && cfg.recoveryEnabled) // a capture error that needs a rebuild
          || p'.pc.PError?)                          // an exception leaves the loop
    case PPush(f) =>
      && sh' == sh.(ring := sh.ring.Push(Item(|p.log|, f)))
      && p' == p.(pc := PCount, log := p.log + [f])
    case PCount => sh' == sh && p' == p.(pc := PAfter, captured := p.captured + 1)
    case PAfter =>
      && sh' == sh
      && p' == p.(pc := p'.pc)
      && (p'.pc.PHead? || (p'.pc.PRebuild? && cfg.recoveryEnabled) || p'.pc.PError?)
    case PRebuild =>
      && sh' == sh
      && p' == p.(pc := p'.pc)
      && (if sh.stop then p'.pc.PRebuildFailed?
          else
            || p'.pc.PRebuild?                       // this attempt failed, another follows
            || p'.pc.PHead?                          // the stream is rebuilt
            || p'.pc.PRebuildFailed?                 // attempts exhausted, or stop seen while sleeping
            || p'.pc.PError?)
    case PRebuildFailed => sh' == sh && p' == p.(pc := if sh.stop then PHead else PError)
    case PError => sh' == sh && p' == p.(pc := PStop, error := true)
    case PStop => sh' == sh.(stop := true) && p' == p.(pc := PDone)
    case PDone => sh' == sh.(producerDone := true) && p' == p.(pc := PExit)
    case PExit => false
  }

  /** The loop condition, the pop and the wait of the consumer. */
  predicate ConsumerLoops(sh: Shared, c: Consumer, sh': Shared, c': Consumer)
    requires sh.Valid()
  {
    match c.pc
    case CHead => sh' == sh && c' == c.(pc := if sh.stop then CDone else CReadDone)
    case CReadDone => sh' == sh && c' == c.(pc := if sh.producerDone then CReadEmpty else CPop)
    case CReadEmpty =>
      && sh' == sh
      && (c' == c.(pc := if sh.ring.items == [] then CDone else CPop) || c' == c.(pc := CError(0, 0)))
    case CPop =>
      || (sh' == sh && c' == c.(pc := CError(0, 0)))
      || (if sh.ring.items == [] then sh' == sh && c' == c.(pc := CWait)
          else sh' == sh.(ring := sh.ring.Pop()) && c' == c.(pc := CCount(sh.ring.items[0])))
    case CWait => sh' == sh && (c' == c.(pc := CHead) || c' == c.(pc := CError(0, 0)))
    case _ => false
  }

  /** What the consumer does with a popped frame. An exception may come between any two effects. */
  predicate ConsumerHandles(cfg: Config, sh: Shared, c: Consumer, sh': Shared, c': Consumer)
    requires sh.Valid()
  {
    match c.pc
    case CCount(item) =>
      && sh' == sh
      && (|| c' == c.(pc := CCheck(item), consumed := c.consumed + 1, seen := c.seen + [item.frame])
          || c' == c.(pc := CError(1, 0)))                          // recording the latency threw
    case CCheck(item) =>
      && sh' == sh
      && (|| c' == c.(pc := if IsUsable(item.frame) then CSave(item) else CInvalid(item))
          || c' == c.(pc := CError(0, 1)))
    case CInvalid(item) =>
      && sh' == sh
      && (|| c' == c.(pc := CHead, invalid := c.invalid + 1)
          || c' == c.(pc := CError(0, 0), invalid := c.invalid + 1)) // logging after the count threw
    case CSave(item) =>
      && sh' == sh
      && (if cfg.saving && c.saved < cfg.saveLimit then
            || c' == c.(pc := CPush(item), saved := c.saved + 1)
            || c' == c.(pc := CError(0, 1), saved := c.saved + 1)   // writing the files threw
          else c' == c.(pc := CPush(item)))
    case CPush(item) =>
      || (sh' == sh && c' == c.(pc := CError(0, 1)))
      || (if cfg.tcpEnabled then sh' == sh.(tcpRing := sh.tcpRing.Push(item)) && c' == c.(pc := CQueued)
          else sh' == sh && c' == c.(pc := CHead))
    case CQueued =>
      && sh' == sh
      && (|| c' == c.(pc := CHead, queued := c.queued + 1)
          || c' == c.(pc := CError(0, 0), queued := c.queued + 1))  // logging after the count threw
    case _ => false
  }

  /** Leaving the loop, normally or through the catch block. */
  predicate ConsumerEnds(sh: Shared, c: Consumer, sh': Shared, c': Consumer)
  {
    match c.pc
    case CDone => sh' == sh.(consumerDone := true) && c' == c.(pc := CExit(0, 0))
    case CError(u, r) => sh' == sh && c' == c.(pc := CErrDone(u, r), error := true)
    case CErrDone(u, r) => sh' == sh.(consumerDone := true) && c' == c.(pc := CErrStop(u, r))
    case CErrStop(u, r) => sh' == sh.(stop := true) && c' == c.(pc := CExit(u, r))
    case _ => false
  }

  predicate ConsumerStep(cfg: Config, sh: Shared, c: Consumer, sh': Shared, c': Consumer)
    requires sh.Valid()
  {
    ConsumerLoops(sh, c, sh', c') || ConsumerHandles(cfg, sh, c, sh', c') || ConsumerEnds(sh, c, sh', c')
  }

  /** The loop condition, the pop and the wait of the sender. */
  predicate SenderLoops(sh: Shared, t: Sender, sh': Shared, t': Sender)
    requires sh.Valid()
  {
    match t.pc
    case SHead =>
      && sh' == sh
      && (t' == t.(pc := if sh.consumerDone then SReadEmpty else SPop) || t' == t.(pc := SCatch))
    case SReadEmpty =>
      && sh' == sh
      && (t' == t.(pc := if sh.tcpRing.items == [] then SClose else SPop) || t' == t.(pc := SCatch))
    case SPop =>
      || (sh' == sh && t' == t.(pc := SCatch))
      || (if sh.tcpRing.items == [] then sh' == sh && t' == t.(pc := SWait)
          else sh' == sh.(tcpRing := sh.tcpRing.Pop()) && t' == t.(pc := SStart(sh.tcpRing.items[0])))
    case SWait => sh' == sh && (t' == t.(pc := SHead) || t' == t.(pc := SCatch))
    case _ => false
  }

  /** Sending one frame and counting it. */
  predicate SenderAdvances(sh: Shared, t: Sender, sh': Shared, t': Sender)
  {
    && sh' == sh
    && match t.pc
       case SStart(item) => Sendable(item.frame) && t' == t.(pc := SCheck(item, 0))
       case SCheck(item, n) => !sh.stop && t' == t.(pc := SCall(item, n))
       case SCall(item, n) =>
         || (Sendable(item.frame) && SomeBytesSent(t, t', item, n))
         || t' == t.(pc := SCheck(item, n))                              // EINTR
         || t' == t.(pc := SRecheck(item, n))                            // EAGAIN
       case SRecheck(item, n) => !sh.stop && t' == t.(pc := SCheck(item, n))
       case SSent => t' == t.(pc := SCounted, sent := t.sent + 1)
       case SCounted => t' == t.(pc := SHead)
       case _ => false
  }

  /** The exceptions on the way. One after the last byte makes the frame a failed one, whether it was counted as
      sent before (recounted) or not. */
  predicate SenderGivesUp(sh: Shared, t: Sender, sh': Shared, t': Sender)
  {
    && sh' == sh
    && match t.pc
       case SStart(item) => !Sendable(item.frame) && t' == Failed(t, SendError, SFail)
       case SCheck(item, n) =>
         t' == if sh.stop then Broken(t, SendCancelled, SCancel, item, n) else Broken(t, SendTimeout, STimeout, item, n)
       case SCall(item, n) => t' == Broken(t, SendError, SFail, item, n)
       case SRecheck(item, n) =>
         if sh.stop then t' == Broken(t, SendCancelled, SCancel, item, n)
         else t' == Broken(t, SendTimeout, STimeout, item, n) || t' == Broken(t, SendError, SFail, item, n)
       case SSent => t' == Failed(t, SendError, SFail)
       case SCounted => t' == Failed(t, SendError, SFail).(recounted := true)
       case _ => false
  }

  predicate SenderSends(sh: Shared, t: Sender, sh': Shared, t': Sender)
  {
    SenderAdvances(sh, t, sh', t') || SenderGivesUp(sh, t, sh', t')
  }

  /** send_frame_over_tcp, or what follows it, threw; the matching catch block is next. */
  function Failed(t: Sender, outcome: SendOutcome, catching: SenderPc): (t': Sender)
  {
    t.(pc := catching, failure := Some(outcome))
  }

  /** The same with only n bytes of the frame on the socket. */
  function Broken(t: Sender, outcome: SendOutcome, catching: SenderPc, item: Item, n: nat): (t': Sender)
  {
    Failed(t, outcome, catching).(broken := Some((item.frame, n)))
  }

  /** The catch blocks and the end of the sender. */
  predicate SenderEnds(sh: Shared, t: Sender, sh': Shared, t': Sender)
  {
    match t.pc
    case STimeout => sh' == sh && t' == t.(pc := STimeoutCounted, errors := t.errors + 1)
    case STimeoutCounted => sh' == sh && t' == t.(pc := SSetStop, timeouts := t.timeouts + 1)
    case SFail => sh' == sh && t' == t.(pc := SSetStop, errors := t.errors + 1)
    case SSetStop =>
      || (sh' == sh.(stop := true) && t' == t.(pc := SClose))
      || (sh' == sh && t' == t.(pc := SCatch))
    case SCancel => sh' == sh && t' == t.(pc := SCancelled, cancellations := t.cancellations + 1)
    case SCancelled => sh' == sh && (t' == t.(pc := SClose) || t' == t.(pc := SCatch))
    case SClose => sh' == sh && t' == t.(pc := SExit)
    case SCatch => sh' == sh && t' == t.(pc := SCatchStop, error := true)
    case SCatchStop => sh' == sh.(stop := true) && t' == t.(pc := SExit)
    case _ => false
  }

  predicate SenderStep(sh: Shared, t: Sender, sh': Shared, t': Sender)
    requires sh.Valid()
  {
    SenderLoops(sh, t, sh', t') || SenderSends(sh, t, sh', t') || SenderEnds(sh, t, sh', t')
  }

  /** send() took at least one more byte of the frame. */
  predicate SomeBytesSent(t: Sender, t': Sender, item: Item, n: nat)
    requires Sendable(item.frame)
  {
    var w := Wire(item.frame);
    var m := |t'.wire| - |t.wire| + n;
    && n < m <= |w|
    && t' == if m == |w| then t.(pc := SSent, wire := t.wire + w[n..m], log := t.log + [item])
             else t.(pc := SCheck(item, m), wire := t.wire + w[n..m])
  }

  /** What a send call leaves alone. */
  lemma SentEffect(t: Sender, t': Sender, item: Item, n: nat)
    requires Sendable(item.frame) && SomeBytesSent(t, t', item, n)
    ensures t' == t.(pc := t'.pc, wire := t'.wire, log := t'.log)
    ensures (t'.pc.SSent? && t'.log == t.log + [item]) || (t'.pc.SCheck? && t'.pc.item == item && t'.log == t.log)
  {
    hide Wire;
  }

  /** One step of one thread. The rings are well formed in every reachable state, see Inv. */
  predicate Step(cfg: Config, s: State, s': State)
  {
    && s.sh.Valid()
    && (|| (s'.c == s.c && s'.t == s.t && ProducerStep(cfg, s.sh, s.p, s'.sh, s'.p))
        || (s'.p == s.p && s'.t == s.t && ConsumerStep(cfg, s.sh, s.c, s'.sh, s'.c))
        || (s'.p == s.p && s'.c == s.c && SenderStep(s.sh, s.t, s'.sh, s'.t)))
  }

  /** A run: any finite interleaving from the start. */
  ghost predicate IsRun(cfg: Config, run: seq<State>)
  {
    && ValidConfig(cfg)
    && |run| > 0
    && Init(cfg, run[0])
    && (forall i :: 0 <= i < |run| - 1 ==> Step(cfg, run[i], run[i + 1]))
  }

  predicate AllExited(s: State)
  {
    s.p.pc.PExit? && s.c.pc.CExit? && s.t.pc.SExit?
  }

  /** What run_pipeline does after the joins. */
  datatype Result = ReturnsNormally | RethrowsProducer | RethrowsConsumer | RethrowsSender | TransmissionFailed

  function Verdict(s: State): (r: Result)
  {
    if s.p.error then RethrowsProducer
    else if s.c.error then RethrowsConsumer
    else if s.t.error then RethrowsSender
    else if s.t.errors > 0 then TransmissionFailed
    else ReturnsNormally
  }

  // ---------------------------------------------------------------- control invariant

  /** The rings are well formed, and every stop has a recorded reason. */
  predicate StopControl(cfg: Config, s: State)
  {
    && ValidConfig(cfg)
    && s.sh.Valid()
    && s.sh.ring.capacity == cfg.ringCapacity && s.sh.tcpRing.capacity == cfg.tcpCapacity
    && (s.sh.stop ==> Verdict(s) != ReturnsNormally)
    && (s.p.pc.PStop? ==> s.p.error)
    && (s.c.pc.CErrDone? || s.c.pc.CErrStop? ==> s.c.error)
    && (s.t.pc.SCatchStop? ==> s.t.error)
    && (s.t.pc.SSetStop? || s.t.pc.STimeoutCounted? ==> s.t.errors > 0)
  }

  /** producer_done and the captured counter. */
  predicate ProducerControl(cfg: Config, sh: Shared, p: Producer)
  {
    && (sh.producerDone <==> p.pc.PExit?)
    && p.captured <= cfg.frameCount
    && (p.pc.PCapture? || p.pc.PPush? || p.pc.PCount? ==> p.captured < cfg.frameCount)
    && (p.pc.PDone? || p.pc.PExit? ==> p.captured == cfg.frameCount || sh.stop)
  }

  /** consumer_done: set only after an error, a stop, or an empty ring behind a finished producer. */
  predicate ConsumerControl(sh: Shared, c: Consumer)
  {
    && (sh.consumerDone <==> c.pc.CErrStop? || c.pc.CExit?)
    && (c.pc.CReadEmpty? ==> sh.producerDone)
    && (c.error ==> c.pc.CErrDone? || c.pc.CErrStop? || c.pc.CExit?)
    && (c.pc.CDone? || (c.pc.CExit? && !c.error) ==> sh.stop || (sh.producerDone && sh.ring.items == []))
    && (c.pc.CExit? && !c.error ==> c.pc == CExit(0, 0))
  }

  predicate SenderBeyondLoop(pc: SenderPc)
  {
    pc.STimeoutCounted? || pc.SSetStop? || pc.SCancelled? || pc.SClose? || pc.SCatch? || pc.SCatchStop? || pc.SExit?
  }

  /** The sender ends by draining the queue, or after exactly one failed or cancelled frame, or by an exception. */
  predicate SenderControl(cfg: Config, sh: Shared, c: Consumer, t: Sender)
  {
    && (t.pc.SReadEmpty? ==> sh.consumerDone)
    && t.errors + t.cancellations <= 1
    && (t.errors + t.cancellations > 0 ==> SenderBeyondLoop(t.pc))
    && (t.pc.SCancelled? ==> t.cancellations > 0)
    && (t.pc.SSetStop? || t.pc.STimeoutCounted? ==> t.errors > 0)
    && (t.pc.SCatchStop? ==> t.error)
    && (t.recounted ==> t.pc.SFail? || t.errors > 0)
    && (t.pc.SCancel? || t.cancellations > 0 ==> sh.stop)
    && (t.pc.SClose? || t.pc.SExit? ==>
          (sh.consumerDone && sh.tcpRing.items == []) || t.errors + t.cancellations > 0 || t.error || !cfg.tcpEnabled)
    && (!cfg.tcpEnabled ==> t.pc.SExit? && sh.tcpRing.items == [] && !c.pc.CQueued?)
  }

  /** The flags mean what the threads take them to mean, and nothing sets stop_requested silently. */
  predicate Control(cfg: Config, s: State)
  {
    && StopControl(cfg, s)
    && ProducerControl(cfg, s.sh, s.p)
    && ConsumerControl(s.sh, s.c)
    && SenderControl(cfg, s.sh, s.c, s.t)
  }

  lemma ProducerKeepsControl(cfg: Config, s: State, s': State)
    requires Control(cfg, s) && s'.c == s.c && s'.t == s.t && ProducerStep(cfg, s.sh, s.p, s'.sh, s'.p)
    ensures Control(cfg, s')
  {
  }

  lemma ConsumerKeepsControl(cfg: Config, s: State, s': State)
    requires Control(cfg, s) && s'.p == s.p && s'.t == s.t && ConsumerStep(cfg, s.sh, s.c, s'.sh, s'.c)
    ensures Control(cfg, s')
  {
    hide IsUsable;
  }

  /** What the other threads rely on. */
  predicate SenderLeaves(sh: Shared, sh': Shared)
  {
    sh' == sh.(tcpRing := sh'.tcpRing, stop := sh'.stop) && (sh.stop ==> sh'.stop)
  }

  lemma SenderLoopsKeepOwn(cfg: Config, sh: Shared, c: Consumer, t: Sender, sh': Shared, t': Sender)
    requires sh.Valid() && SenderControl(cfg, sh, c, t) && SenderLoops(sh, t, sh', t')
    ensures SenderControl(cfg, sh', c, t') && SenderLeaves(sh, sh')
  {
  }

  lemma SenderAdvancingKeepOwn(cfg: Config, sh: Shared, c: Consumer, t: Sender, sh': Shared, t': Sender)
    requires sh.Valid() && SenderControl(cfg, sh, c, t) && SenderAdvances(sh, t, sh', t')
    ensures SenderControl(cfg, sh', c, t') && SenderLeaves(sh, sh')
  {
    hide SomeBytesSent;
    if t.pc.SCall? && Sendable(t.pc.item.frame) && SomeBytesSent(t, t', t.pc.item, t.pc.n) {
      SentEffect(t, t', t.pc.item, t.pc.n);
    }
  }

  lemma SenderGivingUpKeepOwn(cfg: Config, sh: Shared, c: Consumer, t: Sender, sh': Shared, t': Sender)
    requires sh.Valid() && SenderControl(cfg, sh, c, t) && SenderGivesUp(sh, t, sh', t')
    ensures SenderControl(cfg, sh', c, t') && SenderLeaves(sh, sh')
  {
  }

  lemma SenderSendsKeepOwn(cfg: Config, sh: Shared, c: Consumer, t: Sender, sh': Shared, t': Sender)
    requires sh.Valid() && SenderControl(cfg, sh, c, t) && SenderSends(sh, t, sh', t')
    ensures SenderControl(cfg, sh', c, t') && SenderLeaves(sh, sh')
  {
    hide SenderAdvances, SenderGivesUp, SenderControl, SenderLeaves;
    if SenderAdvances(sh, t, sh', t') {
      SenderAdvancingKeepOwn(cfg, sh, c, t, sh', t');
    } else {
      SenderGivingUpKeepOwn(cfg, sh, c, t, sh', t');
    }
  }

  lemma SenderEndsKeepOwn(cfg: Config, sh: Shared, c: Consumer, t: Sender, sh': Shared, t': Sender)
    requires sh.Valid() && SenderControl(cfg, sh, c, t) && SenderEnds(sh, t, sh', t')
    ensures SenderControl(cfg, sh', c, t') && SenderLeaves(sh, sh')
  {
  }

  lemma SenderKeepsOwn(cfg: Config, s: State, s': State)
    requires Control(cfg, s) && s'.p == s.p && s'.c == s.c && SenderStep(s.sh, s.t, s'.sh, s'.t)
    ensures SenderControl(cfg, s'.sh, s'.c, s'.t) && SenderLeaves(s.sh, s'.sh)
  {
    hide SenderLoops, SenderSends, SenderEnds, SenderControl, SenderLeaves;
    if SenderLoops(s.sh, s.t, s'.sh, s'.t) {
      SenderLoopsKeepOwn(cfg, s.sh, s.c, s.t, s'.sh, s'.t);
    } else if SenderSends(s.sh, s.t, s'.sh, s'.t) {
      SenderSendsKeepOwn(cfg, s.sh, s.c, s.t, s'.sh, s'.t);
    } else {
      SenderEndsKeepOwn(cfg, s.sh, s.c, s.t, s'.sh, s'.t);
    }
  }

  lemma SenderLoopsKeepStop(cfg: Config, s: State, s': State)
    requires StopControl(cfg, s) && s'.p == s.p && s'.c == s.c && SenderLoops(s.sh, s.t, s'.sh, s'.t)
    ensures StopControl(cfg, s')
  {
  }

  lemma SenderAdvancingKeepStop(cfg: Config, s: State, s': State)
    requires StopControl(cfg, s) && s'.p == s.p && s'.c == s.c && SenderAdvances(s.sh, s.t, s'.sh, s'.t)
    ensures StopControl(cfg, s')
  {
    hide SomeBytesSent;
    if s.t.pc.SCall? && Sendable(s.t.pc.item.frame) && SomeBytesSent(s.t, s'.t, s.t.pc.item, s.t.pc.n) {
      SentEffect(s.t, s'.t, s.t.pc.item, s.t.pc.n);
    }
  }

  lemma SenderGivingUpKeepStop(cfg: Config, s: State, s': State)
    requires StopControl(cfg, s) && s'.p == s.p && s'.c == s.c && SenderGivesUp(s.sh, s.t, s'.sh, s'.t)
    ensures StopControl(cfg, s')
  {
  }

  lemma SenderSendsKeepStop(cfg: Config, s: State, s': State)
    requires StopControl(cfg, s) && s'.p == s.p && s'.c == s.c && SenderSends(s.sh, s.t, s'.sh, s'.t)
    ensures StopControl(cfg, s')
  {
    hide SenderAdvances, SenderGivesUp, StopControl;
    if SenderAdvances(s.sh, s.t, s'.sh, s'.t) {
      SenderAdvancingKeepStop(cfg, s, s');
    } else {
      SenderGivingUpKeepStop(cfg, s, s');
    }
  }

  lemma SenderEndsKeepStop(cfg: Config, s: State, s': State)
    requires StopControl(cfg, s) && s'.p == s.p && s'.c == s.c && SenderEnds(s.sh, s.t, s'.sh, s'.t)
    ensures StopControl(cfg, s')
  {
  }

  lemma SenderKeepsStop(cfg: Config, s: State, s': State)
    requires s.sh.Valid() && StopControl(cfg, s) && s'.p == s.p && s'.c == s.c && SenderStep(s.sh, s.t, s'.sh, s'.t)
    ensures StopControl(cfg, s')
  {
    hide SenderLoops, SenderSends, SenderEnds, StopControl;
    if SenderLoops(s.sh, s.t, s'.sh, s'.t) {
      SenderLoopsKeepStop(cfg, s, s');
    } else if SenderSends(s.sh, s.t, s'.sh, s'.t) {
      SenderSendsKeepStop(cfg, s, s');
    } else {
      SenderEndsKeepStop(cfg, s, s');
    }
  }

  lemma SenderKeepsControl(cfg: Config, s: State, s': State)
    requires Control(cfg, s) && s'.p == s.p && s'.c == s.c && SenderStep(s.sh, s.t, s'.sh, s'.t)
    ensures Control(cfg, s')
  {
    SenderKeepsOwn(cfg, s, s');
    SenderKeepsStop(cfg, s, s');
    hide SenderStep, StopControl, SenderControl;
  }

  // ---------------------------------------------------------------- conservation

  /** Frames the consumer has popped but not counted. */
  function Uncounted(pc: ConsumerPc): (n: nat)
  {
    match pc
    case CCount(_) => 1
    case CError(u, _) => u
    case CErrDone(u, _) => u
    case CErrStop(u, _) => u
    case CExit(u, _) => u
    case _ => 0
  }

  /** Frames the consumer has counted but neither found invalid nor counted as queued. */
  function Unrouted(pc: ConsumerPc): (n: nat)
  {
    match pc
    case CCheck(_) => 1
    case CInvalid(_) => 1
    case CSave(_) => 1
    case CPush(_) => 1
    case CQueued => 1
    case CError(_, r) => r
    case CErrDone(_, r) => r
    case CErrStop(_, r) => r
    case CExit(_, r) => r
    case _ => 0
  }

  /** Frames the sender has popped but not yet counted as sent, failed or cancelled. */
  function InSend(pc: SenderPc): (n: nat)
  {
    One(pc.SStart? || pc.SCheck? || pc.SCall? || pc.SRecheck? || pc.SSent? || pc.STimeout? || pc.SFail? || pc.SCancel?)
  }

  function One(b: bool): (n: nat)
  {
    if b then 1 else 0
  }

  /** Every captured frame is counted by the consumer, in its hands, dropped or waiting. */
  predicate CaptureBalance(sh: Shared, p: Producer, c: Consumer)
  {
    && |p.log| == p.captured + One(p.pc.PCount?)
    && |p.log| == c.consumed + Uncounted(c.pc) + sh.ring.dropped + |sh.ring.items|
  }

  /** With TCP enabled every consumed frame is found invalid, queued, or in the consumer's hands. */
  predicate RouteBalance(cfg: Config, c: Consumer)
  {
    && (cfg.tcpEnabled ==> c.consumed == c.invalid + c.queued + Unrouted(c.pc))
    && Uncounted(c.pc) + Unrouted(c.pc) <= 1
    && c.saved <= cfg.saveLimit
  }

  function Unusable(frames: seq<Frame>): (n: nat)
    ensures n <= |frames|
  {
    if frames == [] then 0 else Unusable(frames[..|frames| - 1]) + One(!IsUsable(frames[|frames| - 1]))
  }

  /** The consumer is screening or saving the frame it counted last. */
  predicate Undecided(pc: ConsumerPc)
  {
    pc.CCheck? || pc.CInvalid? || pc.CSave?
  }

  /** The consumed frames whose fate is decided. */
  function Decided(c: Consumer): (frames: seq<Frame>)
    requires Undecided(c.pc) ==> c.seen != []
  {
    if Undecided(c.pc) then c.seen[..|c.seen| - 1] else c.seen
  }

  /** An exception took a counted frame with it. */
  predicate LostOne(pc: ConsumerPc)
  {
    (pc.CError? || pc.CErrDone? || pc.CErrStop? || pc.CExit?) && pc.unrouted > 0
  }

  /** Exactly the unusable frames are counted as invalid, and of the others exactly the first saveLimit are saved. */
  predicate ScreenBalance(cfg: Config, c: Consumer)
  {
    && |c.seen| == c.consumed
    && (Undecided(c.pc) ==> c.seen != [] && c.seen[|c.seen| - 1] == c.pc.item.frame)
    && (c.pc.CInvalid? ==> !IsUsable(c.pc.item.frame)) && (c.pc.CSave? ==> IsUsable(c.pc.item.frame))
    && (!LostOne(c.pc) ==>
          var decided := Decided(c);
          && c.invalid == Unusable(decided)
          && c.saved == SavedOf(cfg, |decided| - Unusable(decided)))
  }

  function SavedOf(cfg: Config, usable: nat): (n: nat)
  {
    if !cfg.saving then 0 else if usable < cfg.saveLimit then usable else cfg.saveLimit
  }

  lemma ConsumerLoopsScreen(cfg: Config, sh: Shared, c: Consumer, sh': Shared, c': Consumer)
    requires sh.Valid() && ScreenBalance(cfg, c) && ConsumerLoops(sh, c, sh', c')
    ensures ScreenBalance(cfg, c')
  {
    hide IsUsable, Unusable, SavedOf;
  }

  lemma ConsumerCountScreens(cfg: Config, sh: Shared, c: Consumer, sh': Shared, c': Consumer)
    requires sh.Valid() && ScreenBalance(cfg, c) && ConsumerHandles(cfg, sh, c, sh', c')
    requires c.pc.CCount?
    ensures ScreenBalance(cfg, c')
  {
    hide IsUsable, Unusable, SavedOf;
    assert (c.seen + [c.pc.item.frame])[..|c.seen|] == c.seen;
  }

  /** The decision about the last frame counted. */
  lemma LastDecided(c: Consumer)
    requires c.seen != []
    ensures var n := |c.seen| - 1; Unusable(c.seen) == Unusable(c.seen[..n]) + One(!IsUsable(c.seen[n]))
  {
    hide IsUsable;
  }

  lemma ConsumerCheckScreens(cfg: Config, sh: Shared, c: Consumer, sh': Shared, c': Consumer)
    requires sh.Valid() && ScreenBalance(cfg, c) && ConsumerHandles(cfg, sh, c, sh', c')
    requires c.pc.CCheck?
    ensures ScreenBalance(cfg, c')
  {
    hide IsUsable, Unusable, SavedOf;
  }

  lemma ConsumerDecisionScreens(cfg: Config, sh: Shared, c: Consumer, sh': Shared, c': Consumer)
    requires sh.Valid() && ScreenBalance(cfg, c) && ConsumerHandles(cfg, sh, c, sh', c')
    requires c.pc.CInvalid? || c.pc.CSave?
    ensures ScreenBalance(cfg, c')
  {
    hide IsUsable, Unusable;
    LastDecided(c);
  }

  lemma ConsumerRestScreens(cfg: Config, sh: Shared, c: Consumer, sh': Shared, c': Consumer)
    requires sh.Valid() && ScreenBalance(cfg, c) && ConsumerHandles(cfg, sh, c, sh', c')
    requires c.pc.CPush? || c.pc.CQueued?
    ensures ScreenBalance(cfg, c')
  {
    hide IsUsable, Unusable, SavedOf, Queue.Push;
  }

  lemma ConsumerHandlesScreen(cfg: Config, sh: Shared, c: Consumer, sh': Shared, c': Consumer)
    requires sh.Valid() && ScreenBalance(cfg, c) && ConsumerHandles(cfg, sh, c, sh', c')
    ensures ScreenBalance(cfg, c')
  {
    hide ScreenBalance;
    if c.pc.CCount? {
      ConsumerCountScreens(cfg, sh, c, sh', c');
    } else if c.pc.CCheck? {
      ConsumerCheckScreens(cfg, sh, c, sh', c');
    } else if c.pc.CInvalid? || c.pc.CSave? {
      ConsumerDecisionScreens(cfg, sh, c, sh', c');
    } else {
      ConsumerRestScreens(cfg, sh, c, sh', c');
    }
  }

  lemma ConsumerEndsScreen(cfg: Config, sh: Shared, c: Consumer, sh': Shared, c': Consumer)
    requires ScreenBalance(cfg, c) && ConsumerEnds(sh, c, sh', c')
    ensures ScreenBalance(cfg, c')
  {
    hide IsUsable, Unusable, SavedOf;
  }

  lemma ConsumerKeepsScreen(cfg: Config, sh: Shared, c: Consumer, sh': Shared, c': Consumer)
    requires sh.Valid() && ScreenBalance(cfg, c) && ConsumerStep(cfg, sh, c, sh', c')
    ensures ScreenBalance(cfg, c')
  {
    hide ConsumerLoops, ConsumerHandles, ConsumerEnds, ScreenBalance;
    if ConsumerLoops(sh, c, sh', c') {
      ConsumerLoopsScreen(cfg, sh, c, sh', c');
    } else if ConsumerHandles(cfg, sh, c, sh', c') {
      ConsumerHandlesScreen(cfg, sh, c, sh', c');
    } else {
      ConsumerEndsScreen(cfg, sh, c, sh', c');
    }
  }

  /** Every queued frame is sent, failed, cancelled, in the sender's hands, dropped or waiting; only a frame
      that failed after it was counted as sent is in two of these places. */
  predicate TcpBalance(sh: Shared, c: Consumer, t: Sender)
  {
    c.queued + One(c.pc.CQueued?) == sh.tcpRing.dropped + |sh.tcpRing.items| + Popped(t)
  }

  /** Frames the sender has popped, each once. */
  function Popped(t: Sender): (n: int)
  {
    t.sent + t.errors + t.cancellations + InSend(t.pc) - One(t.recounted)
  }

  /** The frames completely on the socket are the counted ones and at most one more, that is being counted or failed. */
  predicate LogBalance(t: Sender)
  {
    && t.sent + One(t.pc.SSent?) <= |t.log| <= t.sent + One(t.pc.SSent? || t.pc.SFail? || t.errors > 0)
    && (t.recounted ==> |t.log| == t.sent)
    && (t.recounted || t.pc.SCounted? ==> t.sent > 0)
  }

  /** The error counters say how the last send ended: each counts the one failure it stands for. */
  predicate FailureBalance(t: Sender)
  {
    && t.timeouts + One(t.pc.STimeout? || t.pc.STimeoutCounted?) == One(t.failure == Some(SendTimeout))
    && t.errors + One(t.pc.STimeout? || t.pc.SFail?)
       == One(t.failure == Some(SendTimeout) || t.failure == Some(SendError))
    && t.cancellations + One(t.pc.SCancel?) == One(t.failure == Some(SendCancelled))
    && (t.failure.Some? ==> t.pc.STimeout? || t.pc.SFail? || t.pc.SCancel? || SenderBeyondLoop(t.pc))
  }

  /** The counters balance in every reachable state, with the frames in flight in each thread. */
  predicate Conserved(cfg: Config, s: State)
  {
    && CaptureBalance(s.sh, s.p, s.c) && RouteBalance(cfg, s.c) && ScreenBalance(cfg, s.c)
    && TcpBalance(s.sh, s.c, s.t) && LogBalance(s.t) && FailureBalance(s.t)
  }

  lemma ProducerConserves(cfg: Config, s: State, s': State)
    requires s.sh.Valid() && Conserved(cfg, s)
    requires s'.c == s.c && s'.t == s.t && ProducerStep(cfg, s.sh, s.p, s'.sh, s'.p)
    ensures Conserved(cfg, s')
  {
    hide Uncounted, Unrouted, Popped, LogBalance, FailureBalance, RouteBalance, ScreenBalance;
  }

  /** A consumer step takes one frame from the capture ring, or leaves ring and count alone. */
  predicate Takes(sh: Shared, c: Consumer, sh': Shared, c': Consumer)
    requires sh.Valid()
  {
    var more := c'.consumed + Uncounted(c'.pc) - (c.consumed + Uncounted(c.pc));
    || (sh'.ring == sh.ring && more == 0)
    || (sh.ring.items != [] && sh'.ring == sh.ring.Pop() && more == 1)
  }

  lemma ConsumerLoopsTake(sh: Shared, c: Consumer, sh': Shared, c': Consumer)
    requires sh.Valid() && ConsumerLoops(sh, c, sh', c')
    ensures Takes(sh, c, sh', c')
  {
    hide Queue.Push, Queue.Pop;
  }

  lemma ConsumerHandlesTake(cfg: Config, sh: Shared, c: Consumer, sh': Shared, c': Consumer)
    requires sh.Valid() && ConsumerHandles(cfg, sh, c, sh', c')
    ensures Takes(sh, c, sh', c')
  {
    hide IsUsable, Queue.Push, Queue.Pop;
  }

  lemma ConsumerEndsTake(sh: Shared, c: Consumer, sh': Shared, c': Consumer)
    requires sh.Valid() && ConsumerEnds(sh, c, sh', c')
    ensures Takes(sh, c, sh', c')
  {
  }

  lemma ConsumerTakes(cfg: Config, sh: Shared, c: Consumer, sh': Shared, c': Consumer)
    requires sh.Valid() && ConsumerStep(cfg, sh, c, sh', c')
    ensures Takes(sh, c, sh', c')
  {
    hide ConsumerLoops, ConsumerHandles, ConsumerEnds, Takes;
    if ConsumerLoops(sh, c, sh', c') {
      ConsumerLoopsTake(sh, c, sh', c');
    } else if ConsumerHandles(cfg, sh, c, sh', c') {
      ConsumerHandlesTake(cfg, sh, c, sh', c');
    } else {
      ConsumerEndsTake(sh, c, sh', c');
    }
  }

  lemma ConsumerBalancesCapture(cfg: Config, sh: Shared, p: Producer, c: Consumer, sh': Shared, c': Consumer)
    requires sh.Valid() && CaptureBalance(sh, p, c) && ConsumerStep(cfg, sh, c, sh', c')
    ensures CaptureBalance(sh', p, c')
  {
    hide ConsumerStep, Uncounted;
    ConsumerTakes(cfg, sh, c, sh', c');
  }

  lemma ConsumerBalancesRoute(cfg: Config, sh: Shared, c: Consumer, sh': Shared, c': Consumer)
    requires sh.Valid() && RouteBalance(cfg, c) && ConsumerStep(cfg, sh, c, sh', c')
    ensures RouteBalance(cfg, c')
  {
    hide ConsumerLoops, ConsumerHandles, ConsumerEnds, RouteBalance;
    if ConsumerLoops(sh, c, sh', c') {
      ConsumerLoopsRoute(cfg, sh, c, sh', c');
    } else if ConsumerHandles(cfg, sh, c, sh', c') {
      ConsumerHandlesRoute(cfg, sh, c, sh', c');
    } else {
      ConsumerEndsRoute(cfg, sh, c, sh', c');
    }
  }

  lemma ConsumerLoopsRoute(cfg: Config, sh: Shared, c: Consumer, sh': Shared, c': Consumer)
    requires sh.Valid() && RouteBalance(cfg, c) && ConsumerLoops(sh, c, sh', c')
    ensures RouteBalance(cfg, c')
  {
  }

  lemma ConsumerHandlesRoute(cfg: Config, sh: Shared, c: Consumer, sh': Shared, c': Consumer)
    requires sh.Valid() && RouteBalance(cfg, c) && ConsumerHandles(cfg, sh, c, sh', c')
    ensures RouteBalance(cfg, c')
  {
    hide IsUsable, Queue.Push;
  }

  lemma ConsumerEndsRoute(cfg: Config, sh: Shared, c: Consumer, sh': Shared, c': Consumer)
    requires RouteBalance(cfg, c) && ConsumerEnds(sh, c, sh', c')
    ensures RouteBalance(cfg, c')
  {
  }

  lemma ConsumerBalancesTcp(cfg: Config, sh: Shared, c: Consumer, t: Sender, sh': Shared, c': Consumer)
    requires sh.Valid() && TcpBalance(sh, c, t) && ConsumerStep(cfg, sh, c, sh', c')
    ensures TcpBalance(sh', c', t)
  {
    hide IsUsable, Popped, Queue.Pop;
  }

  /** A sender step takes one frame from the TCP ring, or leaves the ring and its count of frames alone. */
  predicate TakesTcp(sh: Shared, t: Sender, sh': Shared, t': Sender)
    requires sh.Valid()
  {
    && sh'.ring == sh.ring
    && (|| (sh'.tcpRing == sh.tcpRing && Popped(t') == Popped(t))
        || (sh.tcpRing.items != [] && sh'.tcpRing == sh.tcpRing.Pop() && Popped(t') == Popped(t) + 1))
  }

  lemma SenderLoopsTake(sh: Shared, t: Sender, sh': Shared, t': Sender)
    requires sh.Valid() && SenderLoops(sh, t, sh', t')
    ensures TakesTcp(sh, t, sh', t')
  {
    hide Queue.Pop;
  }

  lemma SenderSendsTake(sh: Shared, t: Sender, sh': Shared, t': Sender)
    requires sh.Valid() && SenderSends(sh, t, sh', t') && !t.recounted
    ensures TakesTcp(sh, t, sh', t')
  {
    hide Wire, Queue.Pop;
  }

  lemma SenderEndsTake(sh: Shared, t: Sender, sh': Shared, t': Sender)
    requires sh.Valid() && SenderEnds(sh, t, sh', t')
    ensures TakesTcp(sh, t, sh', t')
  {
    hide Queue.Pop;
  }

  lemma SenderTakes(cfg: Config, sh: Shared, c: Consumer, t: Sender, sh': Shared, t': Sender)
    requires sh.Valid() && SenderControl(cfg, sh, c, t) && SenderStep(sh, t, sh', t')
    ensures TakesTcp(sh, t, sh', t')
  {
    hide SenderLoops, SenderSends, SenderEnds, TakesTcp, SenderControl;
    if SenderLoops(sh, t, sh', t') {
      SenderLoopsTake(sh, t, sh', t');
    } else if SenderSends(sh, t, sh', t') {
      SendingIsFresh(cfg, sh, c, t, sh', t');
      SenderSendsTake(sh, t, sh', t');
    } else {
      SenderEndsTake(sh, t, sh', t');
    }
  }

  lemma SenderBalancesTcp(cfg: Config, sh: Shared, c: Consumer, t: Sender, sh': Shared, t': Sender)
    requires sh.Valid() && SenderControl(cfg, sh, c, t) && TcpBalance(sh, c, t) && SenderStep(sh, t, sh', t')
    ensures TcpBalance(sh', c, t') && sh'.ring == sh.ring
  {
    hide SenderStep, SenderControl, Popped;
    SenderTakes(cfg, sh, c, t, sh', t');
  }

  /** No frame is being sent after one has failed. */
  lemma SendingIsFresh(cfg: Config, sh: Shared, c: Consumer, t: Sender, sh': Shared, t': Sender)
    requires SenderControl(cfg, sh, c, t) && SenderSends(sh, t, sh', t')
    ensures t.errors == 0 && !t.recounted
  {
    hide Wire, SomeBytesSent;
  }

  lemma SenderAdvancingLog(sh: Shared, t: Sender, sh': Shared, t': Sender)
    requires LogBalance(t) && t.errors == 0 && !t.recounted && SenderAdvances(sh, t, sh', t')
    ensures LogBalance(t')
  {
    hide SomeBytesSent;
    if t.pc.SCall? && Sendable(t.pc.item.frame) && SomeBytesSent(t, t', t.pc.item, t.pc.n) {
      SentEffect(t, t', t.pc.item, t.pc.n);
    }
  }

  lemma SenderGivingUpLog(sh: Shared, t: Sender, sh': Shared, t': Sender)
    requires LogBalance(t) && t.errors == 0 && !t.recounted && SenderGivesUp(sh, t, sh', t')
    ensures LogBalance(t')
  {
  }

  lemma SenderSendsLog(sh: Shared, t: Sender, sh': Shared, t': Sender)
    requires LogBalance(t) && t.errors == 0 && !t.recounted && SenderSends(sh, t, sh', t')
    ensures LogBalance(t')
  {
    hide SenderAdvances, SenderGivesUp, LogBalance;
    if SenderAdvances(sh, t, sh', t') {
      SenderAdvancingLog(sh, t, sh', t');
    } else {
      SenderGivingUpLog(sh, t, sh', t');
    }
  }

  lemma SenderKeepsLog(cfg: Config, sh: Shared, c: Consumer, t: Sender, sh': Shared, t': Sender)
    requires sh.Valid() && SenderControl(cfg, sh, c, t) && LogBalance(t) && SenderStep(sh, t, sh', t')
    ensures LogBalance(t')
  {
    hide SenderSends, SenderControl;
    if SenderSends(sh, t, sh', t') {
      SendingIsFresh(cfg, sh, c, t, sh', t');
      SenderSendsLog(sh, t, sh', t');
    }
  }

  lemma SenderLoopsFailure(sh: Shared, t: Sender, sh': Shared, t': Sender)
    requires sh.Valid() && FailureBalance(t) && SenderLoops(sh, t, sh', t')
    ensures FailureBalance(t')
  {
  }

  predicate NoFailure(t: Sender)
  {
    t.failure == None && t.timeouts == 0 && t.errors == 0 && t.cancellations == 0
  }

  /** While a frame is being sent nothing has failed. */
  lemma SendingHasNoFailure(sh: Shared, t: Sender, sh': Shared, t': Sender)
    requires FailureBalance(t) && SenderSends(sh, t, sh', t')
    ensures NoFailure(t)
  {
    hide SomeBytesSent, Sendable;
  }

  lemma SenderAdvancingFailure(sh: Shared, t: Sender, sh': Shared, t': Sender)
    requires NoFailure(t) && SenderAdvances(sh, t, sh', t')
    ensures FailureBalance(t')
  {
    hide SomeBytesSent;
    if t.pc.SCall? && Sendable(t.pc.item.frame) && SomeBytesSent(t, t', t.pc.item, t.pc.n) {
      SentEffect(t, t', t.pc.item, t.pc.n);
    }
  }

  lemma SenderGivingUpFailure(sh: Shared, t: Sender, sh': Shared, t': Sender)
    requires NoFailure(t) && SenderGivesUp(sh, t, sh', t')
    ensures FailureBalance(t')
  {
    hide Sendable;
  }

  lemma SenderSendsFailure(sh: Shared, t: Sender, sh': Shared, t': Sender)
    requires FailureBalance(t) && SenderSends(sh, t, sh', t')
    ensures FailureBalance(t')
  {
    hide SenderAdvances, SenderGivesUp, FailureBalance, NoFailure;
    SendingHasNoFailure(sh, t, sh', t');
    if SenderAdvances(sh, t, sh', t') {
      SenderAdvancingFailure(sh, t, sh', t');
    } else {
      SenderGivingUpFailure(sh, t, sh', t');
    }
  }

  lemma SenderEndsFailure(sh: Shared, t: Sender, sh': Shared, t': Sender)
    requires FailureBalance(t) && SenderEnds(sh, t, sh', t')
    ensures FailureBalance(t')
  {
  }

  lemma SenderKeepsFailure(sh: Shared, t: Sender, sh': Shared, t': Sender)
    requires sh.Valid() && FailureBalance(t) && SenderStep(sh, t, sh', t')
    ensures FailureBalance(t')
  {
    hide SenderLoops, SenderSends, SenderEnds, FailureBalance;
    if SenderLoops(sh, t, sh', t') {
      SenderLoopsFailure(sh, t, sh', t');
    } else if SenderSends(sh, t, sh', t') {
      SenderSendsFailure(sh, t, sh', t');
    } else {
      SenderEndsFailure(sh, t, sh', t');
    }
  }

  lemma ConsumerConserves(cfg: Config, s: State, s': State)
    requires Control(cfg, s) && Conserved(cfg, s)
    requires s'.p == s.p && s'.t == s.t && ConsumerStep(cfg, s.sh, s.c, s'.sh, s'.c)
    ensures Conserved(cfg, s')
  {
    hide ConsumerStep, CaptureBalance, RouteBalance, ScreenBalance, TcpBalance, LogBalance, FailureBalance;
    ConsumerKeepsScreen(cfg, s.sh, s.c, s'.sh, s'.c);
    ConsumerBalancesRoute(cfg, s.sh, s.c, s'.sh, s'.c);
    ConsumerBalancesCapture(cfg, s.sh, s.p, s.c, s'.sh, s'.c);
    ConsumerBalancesTcp(cfg, s.sh, s.c, s.t, s'.sh, s'.c);
  }

  lemma SenderConserves(cfg: Config, s: State, s': State)
    requires Control(cfg, s) && Conserved(cfg, s)
    requires s'.p == s.p && s'.c == s.c && SenderStep(s.sh, s.t, s'.sh, s'.t)
    ensures Conserved(cfg, s')
  {
    hide SenderStep, TcpBalance, LogBalance, FailureBalance, ScreenBalance;
    hide SenderControl, ProducerControl, ConsumerControl;
    SenderBalancesTcp(cfg, s.sh, s.c, s.t, s'.sh, s'.t);
    SenderKeepsLog(cfg, s.sh, s.c, s.t, s'.sh, s'.t);
    SenderKeepsFailure(s.sh, s.t, s'.sh, s'.t);
  }

  // ---------------------------------------------------------------- order

  /** The frame the consumer holds. */
  function Consuming(pc: ConsumerPc): (items: seq<Item>)
  {
    if pc.CCount? || pc.CCheck? || pc.CInvalid? || pc.CSave? || pc.CPush? then [pc.item] else []
  }

  /** The frame the sender holds. */
  function Sending(pc: SenderPc): (items: seq<Item>)
  {
    if pc.SStart? || pc.SCheck? || pc.SCall? || pc.SRecheck? then [pc.item] else []
  }

  /** Everything between the socket and the camera, oldest first. */
  function Flow(s: State): (items: seq<Item>)
  {
    s.t.log + Sending(s.t.pc) + s.sh.tcpRing.items + Consuming(s.c.pc) + s.sh.ring.items
  }

  /** Each item is a captured frame, and later items were captured later: no reordering, no duplicates. */
  predicate Ordered(items: seq<Item>, log: seq<Frame>)
  {
    && (forall i :: 0 <= i < |items| ==> items[i].id < |log| && log[items[i].id] == items[i].frame)
    && (forall i, j :: 0 <= i < j < |items| ==> items[i].id < items[j].id)
  }

  predicate AllUsable(items: seq<Item>)
  {
    forall i :: 0 <= i < |items| ==> IsUsable(items[i].frame)
  }

  /** Only usable frames are on the sending side. */
  predicate Screened(s: State)
  {
    && AllUsable(s.t.log) && AllUsable(Sending(s.t.pc)) && AllUsable(s.sh.tcpRing.items)
    && (s.c.pc.CSave? || s.c.pc.CPush? ==> IsUsable(s.c.pc.item.frame))
  }

  lemma DropKeepsOrder(a: seq<Item>, x: seq<Item>, b: seq<Item>, log: seq<Frame>)
    requires Ordered(a + x + b, log)
    ensures Ordered(a + b, log)
  {
    var whole, rest := a + x + b, a + b;
    assert forall i :: 0 <= i < |rest| ==> rest[i] == whole[if i < |a| then i else i + |x|];
  }

  lemma AppendKeepsOrder(items: seq<Item>, log: seq<Frame>, f: Frame)
    requires Ordered(items, log)
    ensures Ordered(items + [Item(|log|, f)], log + [f])
  {
  }

  lemma ProducerKeepsOrder(cfg: Config, s: State, s': State)
    requires s.sh.Valid() && Ordered(Flow(s), s.p.log)
    requires s'.c == s.c && s'.t == s.t && ProducerStep(cfg, s.sh, s.p, s'.sh, s'.p)
    ensures Ordered(Flow(s'), s'.p.log)
  {
    hide Ordered;
    if s.p.pc.PPush? {
      var item := Item(|s.p.log|, s.p.pc.frame);
      AppendKeepsOrder(Flow(s), s.p.log, s.p.pc.frame);
      if s.sh.ring.Full() {
        var front := s.t.log + Sending(s.t.pc) + s.sh.tcpRing.items + Consuming(s.c.pc);
        var oldest, others := s.sh.ring.items[..1], s.sh.ring.items[1..] + [item];
        assert Flow(s) + [item] == front + oldest + others;
        DropKeepsOrder(front, oldest, others, s'.p.log);
        assert Flow(s') == front + others;
      } else {
        assert Flow(s') == Flow(s) + [item];
      }
    }
  }

  /** What a consumer step does to the queues: pop, push, let go of its frame, or nothing. */
  lemma ConsumerMoves(cfg: Config, sh: Shared, c: Consumer, sh': Shared, c': Consumer)
    requires sh.Valid() && ConsumerStep(cfg, sh, c, sh', c')
    ensures || (&& sh'.ring == sh.ring && sh'.tcpRing == sh.tcpRing
                && (Consuming(c'.pc) == Consuming(c.pc) || Consuming(c'.pc) == []))
            || (&& sh.ring.items != [] && Consuming(c.pc) == [] && Consuming(c'.pc) == [sh.ring.items[0]]
                && sh'.ring == sh.ring.Pop() && sh'.tcpRing == sh.tcpRing)
            || (&& |Consuming(c.pc)| == 1 && Consuming(c'.pc) == []
                && sh'.ring == sh.ring && sh'.tcpRing == sh.tcpRing.Push(Consuming(c.pc)[0]))
  {
    hide IsUsable;
  }

  lemma ConsumerKeepsOrder(cfg: Config, s: State, s': State)
    requires s.sh.Valid() && Ordered(Flow(s), s.p.log)
    requires s'.p == s.p && s'.t == s.t && ConsumerStep(cfg, s.sh, s.c, s'.sh, s'.c)
    ensures Ordered(Flow(s'), s'.p.log)
  {
    hide Ordered, ConsumerStep, Consuming, Sending;
    ConsumerMoves(cfg, s.sh, s.c, s'.sh, s'.c);
    var sent := s.t.log + Sending(s.t.pc);
    if s'.sh.ring != s.sh.ring {
      assert s.sh.ring.items == [s.sh.ring.items[0]] + s.sh.ring.items[1..];
      assert Flow(s') == Flow(s);
    } else if s'.sh.tcpRing != s.sh.tcpRing {
      var item := Consuming(s.c.pc)[0];
      assert Consuming(s.c.pc) == [item];
      if s.sh.tcpRing.Full() {
        var oldest, others := s.sh.tcpRing.items[..1], s.sh.tcpRing.items[1..] + [item] + s.sh.ring.items;
        assert Flow(s) == sent + oldest + others;
        DropKeepsOrder(sent, oldest, others, s.p.log);
        assert Flow(s') == sent + others;
      } else {
        assert Flow(s') == Flow(s);
      }
    } else if Consuming(s'.c.pc) != Consuming(s.c.pc) {
      DropKeepsOrder(sent + s.sh.tcpRing.items, Consuming(s.c.pc), s.sh.ring.items, s.p.log);
      assert Flow(s') == sent + s.sh.tcpRing.items + s.sh.ring.items;
    }
  }

  /** What a sender step does to the queue and to the log of sent frames. */
  predicate SenderMove(sh: Shared, t: Sender, sh': Shared, t': Sender)
    requires sh.Valid()
  {
    && sh'.ring == sh.ring
    && (|| (&& t'.log == t.log && sh'.tcpRing == sh.tcpRing
            && (Sending(t'.pc) == Sending(t.pc) || Sending(t'.pc) == []))
        || (&& t'.log == t.log && sh.tcpRing.items != [] && Sending(t.pc) == []
            && Sending(t'.pc) == [sh.tcpRing.items[0]] && sh'.tcpRing == sh.tcpRing.Pop())
        || (t'.log == t.log + Sending(t.pc) && sh'.tcpRing == sh.tcpRing && Sending(t'.pc) == []))
  }

  lemma SenderLoopsMove(sh: Shared, t: Sender, sh': Shared, t': Sender)
    requires sh.Valid() && SenderLoops(sh, t, sh', t')
    ensures SenderMove(sh, t, sh', t')
  {
    hide Queue.Pop;
  }

  lemma SenderAdvancingMove(sh: Shared, t: Sender, sh': Shared, t': Sender)
    requires sh.Valid() && SenderAdvances(sh, t, sh', t')
    ensures SenderMove(sh, t, sh', t')
  {
    hide SomeBytesSent, Queue.Pop;
    if t.pc.SCall? && Sendable(t.pc.item.frame) && SomeBytesSent(t, t', t.pc.item, t.pc.n) {
      SentEffect(t, t', t.pc.item, t.pc.n);
    }
  }

  lemma SenderGivingUpMove(sh: Shared, t: Sender, sh': Shared, t': Sender)
    requires sh.Valid() && SenderGivesUp(sh, t, sh', t')
    ensures SenderMove(sh, t, sh', t')
  {
  }

  lemma SenderSendsMove(sh: Shared, t: Sender, sh': Shared, t': Sender)
    requires sh.Valid() && SenderSends(sh, t, sh', t')
    ensures SenderMove(sh, t, sh', t')
  {
    hide SenderAdvances, SenderGivesUp, SenderMove;
    if SenderAdvances(sh, t, sh', t') {
      SenderAdvancingMove(sh, t, sh', t');
    } else {
      SenderGivingUpMove(sh, t, sh', t');
    }
  }

  lemma SenderEndsMove(sh: Shared, t: Sender, sh': Shared, t': Sender)
    requires sh.Valid() && SenderEnds(sh, t, sh', t')
    ensures SenderMove(sh, t, sh', t')
  {
    hide Queue.Pop;
  }

  lemma SenderMoves(sh: Shared, t: Sender, sh': Shared, t': Sender)
    requires sh.Valid() && SenderStep(sh, t, sh', t')
    ensures SenderMove(sh, t, sh', t')
  {
    hide SenderLoops, SenderSends, SenderEnds, SenderMove;
    if SenderLoops(sh, t, sh', t') {
      SenderLoopsMove(sh, t, sh', t');
    } else if SenderSends(sh, t, sh', t') {
      SenderSendsMove(sh, t, sh', t');
    } else {
      SenderEndsMove(sh, t, sh', t');
    }
  }

  lemma SenderKeepsOrder(s: State, s': State)
    requires s.sh.Valid() && Ordered(Flow(s), s.p.log)
    requires s'.p == s.p && s'.c == s.c && SenderStep(s.sh, s.t, s'.sh, s'.t)
    ensures Ordered(Flow(s'), s'.p.log)
  {
    hide Ordered, SenderStep, Sending, Consuming;
    SenderMoves(s.sh, s.t, s'.sh, s'.t);
    var behind := s.sh.tcpRing.items + Consuming(s.c.pc) + s.sh.ring.items;
    if s'.sh.tcpRing != s.sh.tcpRing {
      assert s.sh.tcpRing.items == [s.sh.tcpRing.items[0]] + s.sh.tcpRing.items[1..];
      assert Flow(s') == Flow(s);
    } else if s'.t.log != s.t.log || Sending(s'.t.pc) == Sending(s.t.pc) {
      assert Flow(s') == Flow(s);
    } else {
      assert Flow(s) == s.t.log + Sending(s.t.pc) + behind;
      DropKeepsOrder(s.t.log, Sending(s.t.pc), behind, s.p.log);
      assert Flow(s') == s.t.log + behind;
    }
  }

  lemma ProducerKeepsScreened(cfg: Config, s: State, s': State)
    requires s.sh.Valid() && Screened(s)
    requires s'.c == s.c && s'.t == s.t && ProducerStep(cfg, s.sh, s.p, s'.sh, s'.p)
    ensures Screened(s')
  {
    hide IsUsable;
  }

  lemma ConsumerKeepsScreened(cfg: Config, s: State, s': State)
    requires s.sh.Valid() && Screened(s)
    requires s'.p == s.p && s'.t == s.t && ConsumerStep(cfg, s.sh, s.c, s'.sh, s'.c)
    ensures Screened(s')
  {
    hide IsUsable;
  }

  lemma SenderKeepsScreened(s: State, s': State)
    requires s.sh.Valid() && Screened(s)
    requires s'.p == s.p && s'.c == s.c && SenderStep(s.sh, s.t, s'.sh, s'.t)
    ensures Screened(s')
  {
    hide IsUsable, SenderStep, Sending;
    SenderMoves(s.sh, s.t, s'.sh, s'.t);
  }

  // ---------------------------------------------------------------- the socket

  function FramesOf(items: seq<Item>): (frames: seq<Frame>)
    ensures |frames| == |items|
  {
    seq(|items|, i requires 0 <= i < |items| => items[i].frame)
  }

  /** Frames whose every byte is on the socket. */
  function Whole(t: Sender): (frames: seq<Frame>)
  {
    FramesOf(t.log)
  }

  /** The frame that is only partly on the socket. */
  function Part(t: Sender): (part: Option<(Frame, nat)>)
  {
    if t.pc.SCheck? || t.pc.SCall? || t.pc.SRecheck? then Some((t.pc.item.frame, t.pc.n)) else t.broken
  }

  /** The socket carries whole frames in order and, last, possibly part of one more. */
  ghost predicate Framed(t: Sender)
  {
    && Carries(t.wire, Whole(t), Part(t))
    && (t.broken.Some? ==>
          t.pc.STimeout? || t.pc.SFail? || t.pc.SCancel? || (SenderBeyondLoop(t.pc) && t.errors + t.cancellations > 0))
  }

  lemma BytesSentKeepFraming(t: Sender, t': Sender, item: Item, n: nat)
    requires Framed(t) && t.pc == SCall(item, n) && Sendable(item.frame) && SomeBytesSent(t, t', item, n)
    ensures Framed(t')
  {
    hide Wire, Carries;
    var m := |t'.wire| - |t.wire| + n;
    CarriesMore(t.wire, Whole(t), item.frame, n, m);
    if m == |Wire(item.frame)| {
      assert Whole(t') == Whole(t) + [item.frame];
    }
  }

  lemma SenderLoopsKeepFraming(sh: Shared, t: Sender, sh': Shared, t': Sender)
    requires sh.Valid() && Framed(t) && SenderLoops(sh, t, sh', t')
    ensures Framed(t')
  {
    hide Carries;
  }

  lemma SenderSendsKeepFraming(sh: Shared, t: Sender, sh': Shared, t': Sender)
    requires Framed(t) && SenderSends(sh, t, sh', t')
    ensures Framed(t')
  {
    hide Wire, Carries;
    if t.pc.SCall? && t'.wire != t.wire {
      BytesSentKeepFraming(t, t', t.pc.item, t.pc.n);
    } else if t.pc.SStart? && t'.pc.SCheck? {
      CarriesStart(t.wire, Whole(t), t.pc.item.frame);
    }
  }

  lemma CarriesStart(stream: seq<byte>, whole: seq<Frame>, f: Frame)
    requires Carries(stream, whole, None) && Sendable(f)
    ensures Carries(stream, whole, Some((f, 0)))
  {
    hide WireAll;
    assert Wire(f)[..0] == [];
  }

  lemma SenderEndsKeepFraming(sh: Shared, t: Sender, sh': Shared, t': Sender)
    requires Framed(t) && SenderEnds(sh, t, sh', t')
    ensures Framed(t')
  {
    hide Carries;
  }

  lemma SenderKeepsFraming(sh: Shared, t: Sender, sh': Shared, t': Sender)
    requires sh.Valid() && Framed(t) && SenderStep(sh, t, sh', t')
    ensures Framed(t')
  {
    hide SenderLoops, SenderSends, SenderEnds, Framed;
    if SenderLoops(sh, t, sh', t') {
      SenderLoopsKeepFraming(sh, t, sh', t');
    } else if SenderSends(sh, t, sh', t') {
      SenderSendsKeepFraming(sh, t, sh', t');
    } else {
      SenderEndsKeepFraming(sh, t, sh', t');
    }
  }

  // ---------------------------------------------------------------- every reachable state

  ghost predicate Inv(cfg: Config, s: State)
  {
    && s.sh.Valid()
    && Control(cfg, s) && Conserved(cfg, s)
    && Ordered(Flow(s), s.p.log) && Screened(s)
    && Framed(s.t)
  }

  lemma InitHasInv(cfg: Config, s: State)
    requires ValidConfig(cfg) && Init(cfg, s)
    ensures Inv(cfg, s)
  {
    assert Flow(s) == [];
    assert Whole(s.t) == [];
  }

  lemma ControlKeepsValid(cfg: Config, s: State)
    requires Control(cfg, s)
    ensures s.sh.Valid()
  {
  }

  lemma StepKeepsInv(cfg: Config, s: State, s': State)
    requires Inv(cfg, s) && Step(cfg, s, s')
    ensures Inv(cfg, s')
  {
    hide ProducerStep, ConsumerStep, SenderStep, Control, Conserved, Ordered, Flow, Screened, Framed;
    if s'.c == s.c && s'.t == s.t && ProducerStep(cfg, s.sh, s.p, s'.sh, s'.p) {
      ProducerKeepsControl(cfg, s, s');
      ProducerConserves(cfg, s, s');
      ProducerKeepsOrder(cfg, s, s');
      ProducerKeepsScreened(cfg, s, s');
    } else if s'.p == s.p && s'.t == s.t && ConsumerStep(cfg, s.sh, s.c, s'.sh, s'.c) {
      ConsumerKeepsControl(cfg, s, s');
      ConsumerConserves(cfg, s, s');
      ConsumerKeepsOrder(cfg, s, s');
      ConsumerKeepsScreened(cfg, s, s');
    } else {
      SenderKeepsControl(cfg, s, s');
      SenderConserves(cfg, s, s');
      SenderKeepsOrder(s, s');
      SenderKeepsScreened(s, s');
      SenderKeepsFraming(s.sh, s.t, s'.sh, s'.t);
    }
    ControlKeepsValid(cfg, s');
  }

  /** The invariant holds in every state of every run. */
  lemma {:induction false} RunHasInv(cfg: Config, run: seq<State>, i: nat)
    requires IsRun(cfg, run) && i < |run|
    ensures Inv(cfg, run[i])
  {
    hide Inv, Step;
    if i == 0 {
      InitHasInv(cfg, run[0]);
    } else {
      RunHasInv(cfg, run, i - 1);
      StepKeepsInv(cfg, run[i - 1], run[i]);
    }
  }

  // ---------------------------------------------------------------- main results

  /** The last state of a run that has joined all threads. */
  ghost predicate Joined(cfg: Config, run: seq<State>, s: State)
  {
    IsRun(cfg, run) && s == run[|run| - 1] && AllExited(s)
  }

  lemma JoinedHasInv(cfg: Config, run: seq<State>, s: State)
    requires Joined(cfg, run, s)
    ensures Inv(cfg, s) && AllExited(s)
  {
    hide Inv, Init, Step;
    RunHasInv(cfg, run, |run| - 1);
  }

  /** Whole-run safety: if run_pipeline returns normally, no thread ever asked for a stop, the requested
      number of frames was captured, the capture ring is empty and its counters balance, exactly the unusable
      consumed frames were counted as invalid and of the others the first saveLimit were saved; with TCP enabled
      the TCP ring is empty too, nothing timed out or was cancelled, and every queued frame was sent or dropped. */
  lemma NormalReturnIsComplete(cfg: Config, run: seq<State>, s: State)
    requires Joined(cfg, run, s) && Verdict(s) == ReturnsNormally
    ensures !s.sh.stop
    ensures s.p.captured == cfg.frameCount
    ensures s.sh.ring.items == [] && s.p.captured == s.c.consumed + s.sh.ring.dropped
    ensures |s.c.seen| == s.c.consumed && s.c.invalid == Unusable(s.c.seen)
    ensures s.c.saved == SavedOf(cfg, s.c.consumed - s.c.invalid)
    ensures cfg.tcpEnabled ==>
              && s.sh.tcpRing.items == []
              && s.c.consumed == s.c.invalid + s.c.queued
              && s.c.queued == s.t.sent + s.sh.tcpRing.dropped
              && s.t.cancellations == 0 && s.t.timeouts == 0
  {
    hide Joined, Framed, Screened, Ordered, Flow;
    JoinedHasInv(cfg, run, s);
  }

  /** Conservation after the joins, whatever happened to producer and sender: only a consumer exception
      can lose a frame from the count, and then at most one. At most one frame fails or is cancelled; if it
      fails after the count, it is counted twice. Timeouts, errors and cancellations count exactly how the last
      send ended. At most one frame is on the socket without being counted. */
  lemma ConservationAfterJoins(cfg: Config, run: seq<State>, s: State)
    requires Joined(cfg, run, s)
    ensures var accounted := s.c.consumed + s.sh.ring.dropped + |s.sh.ring.items|;
            accounted <= s.p.captured <= accounted + One(s.c.error)
    ensures s.c.queued + One(s.t.recounted)
         == s.t.sent + s.sh.tcpRing.dropped + |s.sh.tcpRing.items| + s.t.errors + s.t.cancellations
    ensures s.t.errors + s.t.cancellations <= 1 && s.t.timeouts <= s.t.errors && One(s.t.recounted) <= s.t.errors
    ensures s.t.timeouts == One(s.t.failure == Some(SendTimeout))
    ensures s.t.errors == One(s.t.failure == Some(SendTimeout) || s.t.failure == Some(SendError))
    ensures s.t.cancellations == One(s.t.failure == Some(SendCancelled))
    ensures s.t.sent <= |s.t.log| <= s.t.sent + s.t.errors
    ensures cfg.tcpEnabled ==> s.c.invalid + s.c.queued <= s.c.consumed <= s.c.invalid + s.c.queued + One(s.c.error)
  {
    hide Joined, Framed, Screened, Ordered, Flow, StopControl, ProducerControl;
    JoinedHasInv(cfg, run, s);
  }

  /** stop_requested never rises without a reason that run_pipeline reports as an exception. */
  lemma StopIsReported(cfg: Config, run: seq<State>, i: nat)
    requires IsRun(cfg, run) && i < |run| && run[i].sh.stop
    ensures Verdict(run[i]) != ReturnsNormally
  {
    hide IsRun, Framed, Screened, Ordered, Flow, Verdict, Conserved;
    RunHasInv(cfg, run, i);
  }

  lemma SentPrefixOrdered(s: State)
    requires Ordered(Flow(s), s.p.log)
    ensures Ordered(s.t.log, s.p.log)
  {
    hide Ordered, Sending, Consuming;
    var rest := Sending(s.t.pc) + s.sh.tcpRing.items + Consuming(s.c.pc) + s.sh.ring.items;
    assert Flow(s) == s.t.log + rest + [];
    DropKeepsOrder(s.t.log, rest, [], s.p.log);
    assert s.t.log + [] == s.t.log;
  }

  /** Order: in every state of every run the frames completely on the socket (the counted ones first) are
      captured frames in capture order, each at most once, and every one of them passed is_frame_usable. */
  lemma SentFramesAreCapturedInOrder(cfg: Config, run: seq<State>, i: nat)
    requires IsRun(cfg, run) && i < |run|
    ensures var s := run[i];
            && s.t.sent <= |s.t.log| <= s.t.sent + 1
            && Ordered(s.t.log, s.p.log) && AllUsable(s.t.log)
  {
    hide IsRun, Framed, AllUsable, Control, Ordered, Flow, CaptureBalance, RouteBalance;
    RunHasInv(cfg, run, i);
    SentPrefixOrdered(run[i]);
  }
}
