/** What can still happen in the pipeline after stop_requested is set. */
module Shutdown {
  import opened Frames
  import opened Pipeline

  // ---------------------------------------------------------------- bounded work

  /** Frames pushed so far, plus the one a capture in progress may still push. */
  function Pushes(p: Producer): (n: nat)
  {
    |p.log| + One(p.pc.PCapture? || p.pc.PPush?)
  }

  /** Frames popped by the consumer, plus the one it may pop before it next reads the flag. */
  function ConsumerPops(c: Consumer): (n: nat)
  {
    c.consumed + Uncounted(c.pc) + One(c.pc.CReadDone? || c.pc.CReadEmpty? || c.pc.CPop?)
  }

  /** Frames popped by the sender, plus the one it may pop before a send call reads the flag. */
  function SenderPops(t: Sender): (n: int)
  {
    Popped(t) + One(t.pc.SCall? || t.pc.SSent? || t.pc.SCounted?
                    || t.pc.SHead? || t.pc.SReadEmpty? || t.pc.SPop? || t.pc.SWait?)
  }

  /** Frames completely on the socket, plus the one whose last send call is in progress. */
  function Completions(t: Sender): (n: nat)
  {
    |t.log| + One(t.pc.SCall?)
  }

  /** No step after a stop creates new work of any of the four kinds. */
  ghost predicate Winding(s: State, s': State)
  {
    && s'.sh.stop
    && Pushes(s'.p) <= Pushes(s.p)
    && ConsumerPops(s'.c) <= ConsumerPops(s.c)
    && SenderPops(s'.t) <= SenderPops(s.t)
    && Completions(s'.t) <= Completions(s.t)
  }

  lemma ProducerWinds(cfg: Config, sh: Shared, p: Producer, sh': Shared, p': Producer)
    requires sh.Valid() && sh.stop && ProducerStep(cfg, sh, p, sh', p')
    ensures sh'.stop && Pushes(p') <= Pushes(p)
  {
  }

  lemma ConsumerWinds(cfg: Config, sh: Shared, c: Consumer, sh': Shared, c': Consumer)
    requires sh.Valid() && sh.stop && ConsumerStep(cfg, sh, c, sh', c')
    ensures sh'.stop && ConsumerPops(c') <= ConsumerPops(c)
  {
    hide IsUsable;
  }

  /** A sender step under a raised stop flag. */
  ghost predicate SenderWinding(sh: Shared, t: Sender, sh': Shared, t': Sender)
  {
    sh'.stop && SenderPops(t') <= SenderPops(t) && Completions(t') <= Completions(t)
  }

  lemma SenderLoopsWind(sh: Shared, t: Sender, sh': Shared, t': Sender)
    requires sh.Valid() && sh.stop && SenderLoops(sh, t, sh', t')
    ensures SenderWinding(sh, t, sh', t')
  {
  }

  lemma SenderSendsWind(sh: Shared, t: Sender, sh': Shared, t': Sender)
    requires sh.stop && SenderSends(sh, t, sh', t')
    ensures SenderWinding(sh, t, sh', t')
  {
    hide Wire;
  }

  lemma SenderEndsWind(sh: Shared, t: Sender, sh': Shared, t': Sender)
    requires sh.stop && SenderEnds(sh, t, sh', t')
    ensures SenderWinding(sh, t, sh', t')
  {
  }

  lemma SenderWinds(sh: Shared, t: Sender, sh': Shared, t': Sender)
    requires sh.Valid() && sh.stop && SenderStep(sh, t, sh', t')
    ensures SenderWinding(sh, t, sh', t')
  {
    hide SenderLoops, SenderSends, SenderEnds, SenderWinding;
    if SenderLoops(sh, t, sh', t') {
      SenderLoopsWind(sh, t, sh', t');
    } else if SenderSends(sh, t, sh', t') {
      SenderSendsWind(sh, t, sh', t');
    } else {
      SenderEndsWind(sh, t, sh', t');
    }
  }

  lemma StepWinds(cfg: Config, s: State, s': State)
    requires s.sh.stop && Step(cfg, s, s')
    ensures Winding(s, s')
  {
    hide ProducerStep, ConsumerStep, SenderStep, Pushes, ConsumerPops, SenderPops, Completions;
    if s'.c == s.c && s'.t == s.t && ProducerStep(cfg, s.sh, s.p, s'.sh, s'.p) {
      ProducerWinds(cfg, s.sh, s.p, s'.sh, s'.p);
    } else if s'.p == s.p && s'.t == s.t && ConsumerStep(cfg, s.sh, s.c, s'.sh, s'.c) {
      ConsumerWinds(cfg, s.sh, s.c, s'.sh, s'.c);
    } else {
      SenderWinds(s.sh, s.t, s'.sh, s'.t);
    }
  }

  lemma {:induction false} RunWinds(cfg: Config, run: seq<State>, i: nat, j: nat)
    requires IsRun(cfg, run) && i <= j < |run| && run[i].sh.stop
    ensures Winding(run[i], run[j])
    decreases j - i
  {
    hide Step, Init, Pushes, ConsumerPops, SenderPops, Completions;
    if i < j {
      RunWinds(cfg, run, i, j - 1);
      StepWinds(cfg, run[j - 1], run[j]);
    }
  }

  /** Once a stop is requested, for the whole rest of the run: the producer pushes at most one more frame,
      the consumer pops at most one more, the sender pops at most one more and completes at most one more. */
  lemma AtMostOneMore(cfg: Config, run: seq<State>, i: nat, j: nat)
    requires IsRun(cfg, run) && i <= j < |run| && run[i].sh.stop
    ensures |run[j].p.log| <= |run[i].p.log| + 1
    ensures run[j].c.consumed + Uncounted(run[j].c.pc) <= run[i].c.consumed + Uncounted(run[i].c.pc) + 1
    ensures |run[j].t.log| <= |run[i].t.log| + 1
    ensures Popped(run[j].t) <= Popped(run[i].t) + 1
  {
    hide IsRun, Uncounted, Popped;
    RunWinds(cfg, run, i, j);
  }

  // ---------------------------------------------------------------- ranking

  /** How many steps of its own the consumer may still take after a stop, at most. */
  function ConsumerRank(pc: ConsumerPc): (n: nat)
  {
    match pc
    case CReadDone => 15
    case CReadEmpty => 14
    case CPop => 13
    case CCount(_) => 12
    case CCheck(_) => 11
    case CSave(_) => 10
    case CInvalid(_) => 9
    case CPush(_) => 9
    case CQueued => 8
    case CWait => 5
    case CHead => 4
    case CError(_, _) => 3
    case CErrDone(_, _) => 2
    case CErrStop(_, _) => 1
    case CDone => 1
    case CExit(_, _) => 0
  }

  /** How many steps of its own the sender may still take once a stop is requested and the consumer is done.
      At the pop this depends on the queue, which nobody fills any more. */
  function SenderRank(sh: Shared, pc: SenderPc): (n: nat)
  {
    match pc
    case SPop => if sh.tcpRing.items == [] then 23 else 11
    case SWait => 22
    case SCall(_, _) => 21
    case SSent => 20
    case SCounted => 19
    case SHead => 13
    case SReadEmpty => 12
    case SStart(_) => 10
    case SRecheck(_, _) => 9
    case SCheck(_, _) => 8
    case STimeout => 7
    case SCancel => 7
    case STimeoutCounted => 6
    case SFail => 6
    case SCancelled => 6
    case SSetStop => 5
    case SCatch => 3
    case SCatchStop => 2
    case SClose => 1
    case SExit => 0
  }

  /** After a stop every consumer step lowers its rank: the thread ends within fifteen steps of its own. */
  lemma ConsumerRankFalls(cfg: Config, sh: Shared, c: Consumer, sh': Shared, c': Consumer)
    requires sh.Valid() && sh.stop && ConsumerStep(cfg, sh, c, sh', c')
    ensures ConsumerRank(c'.pc) < ConsumerRank(c.pc)
  {
    hide IsUsable;
  }

  lemma SenderLoopsFall(sh: Shared, t: Sender, sh': Shared, t': Sender)
    requires sh.Valid() && sh.stop && sh.consumerDone && SenderLoops(sh, t, sh', t')
    ensures SenderRank(sh', t'.pc) < SenderRank(sh, t.pc)
  {
  }

  lemma SenderSendsFall(sh: Shared, t: Sender, sh': Shared, t': Sender)
    requires sh.stop && SenderSends(sh, t, sh', t')
    ensures SenderRank(sh', t'.pc) < SenderRank(sh, t.pc)
  {
    hide Wire;
  }

  lemma SenderEndsFall(sh: Shared, t: Sender, sh': Shared, t': Sender)
    requires SenderEnds(sh, t, sh', t')
    ensures SenderRank(sh', t'.pc) < SenderRank(sh, t.pc)
  {
  }

  /** After a stop and with the consumer done every sender step lowers its rank, the wait included: the
      thread ends within twenty-three steps of its own. */
  lemma SenderRankFalls(sh: Shared, t: Sender, sh': Shared, t': Sender)
    requires sh.Valid() && sh.stop && sh.consumerDone && SenderStep(sh, t, sh', t')
    ensures SenderRank(sh', t'.pc) < SenderRank(sh, t.pc)
  {
    hide SenderLoops, SenderSends, SenderEnds, SenderRank;
    if SenderLoops(sh, t, sh', t') {
      SenderLoopsFall(sh, t, sh', t');
    } else if SenderSends(sh, t, sh', t') {
      SenderSendsFall(sh, t, sh', t');
    } else {
      SenderEndsFall(sh, t, sh', t');
    }
  }

  /** The ranks together. The sender's part counts from the moment the consumer is done. */
  function Remaining(s: State): (n: nat)
  {
    ConsumerRank(s.c.pc) + if s.sh.consumerDone then SenderRank(s.sh, s.t.pc) else 23
  }

  /** Consumer steps, and sender steps behind a finished consumer: those that bring the shutdown forward. */
  predicate Winds(s: State, s': State)
  {
    s'.c != s.c || (s.sh.consumerDone && s'.t != s.t)
  }

  lemma RankBound(sh: Shared, pc: SenderPc)
    ensures SenderRank(sh, pc) <= 23
  {
  }

  /** The rank depends on the queue alone. */
  lemma SameRank(sh: Shared, sh': Shared, pc: SenderPc)
    requires sh'.tcpRing == sh.tcpRing
    ensures SenderRank(sh', pc) == SenderRank(sh, pc)
  {
  }

  lemma ProducerLeavesQueue(cfg: Config, sh: Shared, p: Producer, sh': Shared, p': Producer)
    requires sh.Valid() && ProducerStep(cfg, sh, p, sh', p')
    ensures sh'.tcpRing == sh.tcpRing && sh'.consumerDone == sh.consumerDone
  {
  }

  lemma DoneConsumerLeavesQueue(cfg: Config, sh: Shared, c: Consumer, sh': Shared, c': Consumer)
    requires sh.Valid() && sh.consumerDone && ConsumerControl(sh, c) && ConsumerStep(cfg, sh, c, sh', c')
    ensures sh'.tcpRing == sh.tcpRing && sh'.consumerDone
  {
    hide IsUsable;
  }

  /** After a stop no step of any thread raises the common rank, and every winding step lowers it. */
  lemma StepLowers(cfg: Config, s: State, s': State)
    requires Control(cfg, s) && s.sh.Valid() && s.sh.stop && Step(cfg, s, s')
    ensures Remaining(s') <= Remaining(s) && (Winds(s, s') ==> Remaining(s') < Remaining(s))
  {
    hide ProducerStep, ConsumerStep, SenderStep, SenderRank, ConsumerRank, StopControl, SenderControl;
    RankBound(s'.sh, s'.t.pc);
    if s'.c == s.c && s'.t == s.t && ProducerStep(cfg, s.sh, s.p, s'.sh, s'.p) {
      ProducerLeavesQueue(cfg, s.sh, s.p, s'.sh, s'.p);
      SameRank(s.sh, s'.sh, s.t.pc);
    } else if s'.p == s.p && s'.t == s.t && ConsumerStep(cfg, s.sh, s.c, s'.sh, s'.c) {
      ConsumerRankFalls(cfg, s.sh, s.c, s'.sh, s'.c);
      if s.sh.consumerDone {
        DoneConsumerLeavesQueue(cfg, s.sh, s.c, s'.sh, s'.c);
        SameRank(s.sh, s'.sh, s.t.pc);
      }
    } else {
      SenderKeepsOwn(cfg, s, s');
      if s.sh.consumerDone {
        SenderRankFalls(s.sh, s.t, s'.sh, s'.t);
      }
    }
  }

  /** How many steps between i and j bring the shutdown forward. */
  function WindingSteps(run: seq<State>, i: nat, j: nat): (n: nat)
    requires i <= j < |run|
    decreases j - i
  {
    if i == j then 0 else WindingSteps(run, i, j - 1) + One(Winds(run[j - 1], run[j]))
  }

  /** Shutdown is bounded: in any continuation of a stopped run, consumer steps and the sender's steps behind a
      finished consumer together number at most 38. */
  lemma {:induction false} ShutdownIsBounded(cfg: Config, run: seq<State>, i: nat, j: nat)
    requires IsRun(cfg, run) && i <= j < |run| && run[i].sh.stop
    ensures WindingSteps(run, i, j) + Remaining(run[j]) <= Remaining(run[i]) <= 38
    decreases j - i
  {
    hide Init, Step, Remaining, Winds, Inv;
    if i == j {
      RemainingBound(run[i]);
    } else {
      ShutdownIsBounded(cfg, run, i, j - 1);
      RunWinds(cfg, run, i, j - 1);
      ControlOf(cfg, run, j - 1);
      StepLowers(cfg, run[j - 1], run[j]);
    }
  }

  lemma RemainingBound(s: State)
    ensures Remaining(s) <= 38
  {
    RankBound(s.sh, s.t.pc);
    hide SenderRank;
  }

  lemma ControlOf(cfg: Config, run: seq<State>, i: nat)
    requires IsRun(cfg, run) && i < |run|
    ensures Control(cfg, run[i]) && run[i].sh.Valid()
  {
    hide IsRun, Control, Conserved, Ordered, Flow, Screened, Framed;
    RunHasInv(cfg, run, i);
  }
}
