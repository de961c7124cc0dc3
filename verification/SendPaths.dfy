/** The sending loop (module TcpSend) and the sender's program points (module Pipeline) describe the same code:
    every script of ticks is a path through SCheck, SCall and SRecheck with the same outcome and bytes. */
module SendPaths {
  import opened FrameProtocol
  import opened Frames
  import opened TcpSend
  import opened Pipeline

  /** The sender may step from t to t' whenever it reads this value of stop_requested. */
  ghost predicate MayStep(stop: bool, t: Sender, t': Sender)
  {
    forall sh: Shared :: sh.stop == stop ==> SenderSends(sh, t, sh, t')
  }

  /** One step of a path: the flag as read, and the state after it. */
  datatype Hop = Hop(stop: bool, to: Sender)

  ghost predicate IsPath(t: Sender, hops: seq<Hop>, t': Sender)
    decreases |hops|
  {
    if hops == [] then t' == t
    else MayStep(hops[0].stop, t, hops[0].to) && IsPath(hops[0].to, hops[1..], t')
  }

  lemma {:induction false} PathsJoin(t: Sender, a: seq<Hop>, u: Sender, b: seq<Hop>, v: Sender)
    requires IsPath(t, a, u) && IsPath(u, b, v)
    ensures IsPath(t, a + b, v)
    decreases |a|
  {
    hide MayStep;
    if a == [] {
      assert a + b == b;
    } else {
      PathsJoin(a[0].to, a[1..], u, b, v);
      assert (a + b)[1..] == a[1..] + b && (a + b)[0] == a[0];
    }
  }

  /** A path reads a raised flag only if some tick did. */
  ghost predicate FlagsFrom(hops: seq<Hop>, ticks: seq<SendTick>)
  {
    (exists i :: 0 <= i < |hops| && hops[i].stop) ==> SawStop(ticks)
  }

  // ---------------------------------------------------------------- states on the way

  /** The sender when m bytes of its frame are on the socket, of which it has sent those from n on. */
  function Advanced(t: Sender, item: Item, n: nat, m: nat): (u: Sender)
    requires Sendable(item.frame) && n <= m <= |Wire(item.frame)|
  {
    if m == n then t
    else
      var more := t.(wire := t.wire + Wire(item.frame)[n..m]);
      if m == |Wire(item.frame)| then more.(pc := SSent, log := t.log + [item]) else more.(pc := SCheck(item, m))
  }

  /** The sender when the loop is left with m bytes on the socket. */
  function Left(t: Sender, item: Item, m: nat, outcome: SendOutcome): (u: Sender)
  {
    match outcome
    case SendTimeout => Broken(t, outcome, STimeout, item, m)
    case SendCancelled => Broken(t, outcome, SCancel, item, m)
    case SendError => Broken(t, outcome, SFail, item, m)
    case _ => t
  }

  predicate Checking(t: Sender, item: Item, n: nat)
  {
    t.pc == SCheck(item, n) && Sendable(item.frame) && n < |Wire(item.frame)|
  }

  lemma AdvancedChecks(t: Sender, item: Item, n: nat, m: nat)
    requires Checking(t, item, n) && n <= m <= |Wire(item.frame)|
    ensures Advanced(t, item, n, n) == t
    ensures m < |Wire(item.frame)| ==> Checking(Advanced(t, item, n, m), item, m)
  {
    hide Wire;
  }

  lemma AdvancedNone(t: Sender, item: Item, n: nat)
    requires Sendable(item.frame) && n <= |Wire(item.frame)|
    ensures Advanced(t, item, n, n) == t && Left(t, item, n, SendOk) == t && Left(t, item, n, SendPending) == t
  {
    hide Wire;
  }

  lemma AdvancedTwice(t: Sender, item: Item, n: nat, m: nat, k: nat)
    requires Sendable(item.frame) && n <= m <= k <= |Wire(item.frame)| && (m == |Wire(item.frame)| ==> k == m)
    requires n < |Wire(item.frame)|
    ensures Advanced(Advanced(t, item, n, m), item, m, k) == Advanced(t, item, n, k)
  {
    hide Wire;
    var w := Wire(item.frame);
    assert w[n..k] == w[n..m] + w[m..k];
    assert t.wire + w[n..m] + w[m..k] == t.wire + w[n..k];
  }

  // ---------------------------------------------------------------- one turn

  /** The sender after a turn of the loop. */
  function Turned(t: Sender, item: Item, n: nat, turn: Turn): (u: Sender)
    requires Sendable(item.frame) && n <= |Wire(item.frame)|
    requires turn.Proceed? ==> n + turn.taken <= |Wire(item.frame)|
  {
    match turn
    case Leave(outcome) => Left(t, item, n, outcome)
    case Proceed(taken) => Advanced(t, item, n, n + taken)
  }

  lemma OneHop(stop: bool, t: Sender, t': Sender) returns (hops: seq<Hop>)
    requires MayStep(stop, t, t')
    ensures IsPath(t, hops, t') && hops == [Hop(stop, t')]
  {
    hide MayStep;
    hops := [Hop(stop, t')];
    assert hops[1..] == [];
  }

  lemma NoHop(t: Sender, ticks: seq<SendTick>) returns (hops: seq<Hop>)
    ensures hops == [] && IsPath(t, hops, t) && FlagsFrom(hops, ticks)
  {
    hops := [];
  }

  /** The send call, once the first check has passed. */
  lemma CallHop(t: Sender, item: Item, n: nat, m: nat)
    requires t.pc == SCall(item, n) && Sendable(item.frame) && n < m <= |Wire(item.frame)|
    ensures MayStep(false, t, Advanced(t.(pc := SCheck(item, n)), item, n, m))
  {
    hide Wire;
    var t' := Advanced(t.(pc := SCheck(item, n)), item, n, m);
    assert SomeBytesSent(t, t', item, n);
  }

  /** The part of a turn behind the send call. */
  lemma AfterCall(t: Sender, item: Item, n: nat, tick: SendTick, remaining: nat, deadline: int)
    returns (hops: seq<Hop>)
    requires Checking(t, item, n) && 0 < remaining && n + remaining <= |Wire(item.frame)|
    requires !tick.stopBefore && tick.nowBefore < deadline
    ensures IsPath(t.(pc := SCall(item, n)), hops, Turned(t, item, n, TakeTurn(tick, remaining, deadline, true)))
    ensures FlagsFrom(hops, [tick])
  {
    hide Wire, IsPath, MayStep;
    var called := t.(pc := SCall(item, n));
    var after := Turned(t, item, n, TakeTurn(tick, remaining, deadline, true));
    match tick.result
    case Sent(k) =>
      if k == 0 {
        FailHop(t, item, n);
      } else {
        CallHop(called, item, n, n + if k <= remaining then k else remaining);
        assert called.(pc := SCheck(item, n)) == t;
      }
      hops := OneHop(false, called, after);
    case Interrupted =>
      RetryHop(t, item, n);
      hops := OneHop(false, called, after);
    case SendFailed =>
      FailHop(t, item, n);
      hops := OneHop(false, called, after);
    case WouldBlock =>
      var blocked := t.(pc := SRecheck(item, n));
      BlockHop(t, item, n);
      var first := OneHop(false, called, blocked);
      RecheckHop(t, item, n, tick, remaining, deadline);
      var second := OneHop(tick.stopAfter, blocked, after);
      PathsJoin(called, first, blocked, second, after);
      hops := first + second;
      assert [tick][0] == tick;
  }

  lemma FailHop(t: Sender, item: Item, n: nat)
    requires t.pc == SCheck(item, n)
    ensures MayStep(false, t.(pc := SCall(item, n)), Left(t, item, n, SendError))
  {
  }

  lemma RetryHop(t: Sender, item: Item, n: nat)
    requires t.pc == SCheck(item, n)
    ensures MayStep(false, t.(pc := SCall(item, n)), t)
  {
  }

  lemma BlockHop(t: Sender, item: Item, n: nat)
    requires t.pc == SCheck(item, n)
    ensures MayStep(false, t.(pc := SCall(item, n)), t.(pc := SRecheck(item, n)))
  {
  }

  lemma RecheckHop(t: Sender, item: Item, n: nat, tick: SendTick, remaining: nat, deadline: int)
    requires Checking(t, item, n) && 0 < remaining && n + remaining <= |Wire(item.frame)|
    requires !tick.stopBefore && tick.nowBefore < deadline && tick.result.WouldBlock?
    ensures MayStep(tick.stopAfter, t.(pc := SRecheck(item, n)),
                    Turned(t, item, n, TakeTurn(tick, remaining, deadline, true)))
  {
    hide Wire, SomeBytesSent;
  }

  lemma CheckHop(t: Sender, item: Item, n: nat)
    requires t.pc == SCheck(item, n)
    ensures MayStep(true, t, Left(t, item, n, SendCancelled))
    ensures MayStep(false, t, Left(t, item, n, SendTimeout))
    ensures MayStep(false, t, t.(pc := SCall(item, n)))
  {
  }

  /** One turn of the loop is a path of at most three steps. */
  lemma TurnIsPath(t: Sender, item: Item, n: nat, tick: SendTick, remaining: nat, deadline: int)
    returns (hops: seq<Hop>)
    requires Checking(t, item, n) && 0 < remaining && n + remaining <= |Wire(item.frame)|
    ensures IsPath(t, hops, Turned(t, item, n, TakeTurn(tick, remaining, deadline, true)))
    ensures FlagsFrom(hops, [tick])
  {
    hide Wire, IsPath, MayStep;
    CheckHop(t, item, n);
    assert [tick][0] == tick;
    if tick.stopBefore {
      hops := OneHop(true, t, Left(t, item, n, SendCancelled));
    } else if tick.nowBefore >= deadline {
      hops := OneHop(false, t, Left(t, item, n, SendTimeout));
    } else {
      var called := t.(pc := SCall(item, n));
      var first := OneHop(false, t, called);
      var second := AfterCall(t, item, n, tick, remaining, deadline);
      PathsJoin(t, first, called, second, Turned(t, item, n, TakeTurn(tick, remaining, deadline, true)));
      hops := first + second;
    }
  }

  // ---------------------------------------------------------------- one loop, one frame

  lemma FlagsGrow(a: seq<Hop>, b: seq<Hop>, tick: SendTick, ticks: seq<SendTick>)
    requires FlagsFrom(a, [tick]) && FlagsFrom(b, ticks)
    ensures FlagsFrom(a + b, [tick] + ticks)
  {
    if i :| 0 <= i < |a + b| && (a + b)[i].stop {
      if i < |a| {
        assert a[i].stop;
        assert ([tick] + ticks)[0] == tick;
        assert SawStop([tick] + ticks);
      } else {
        assert b[i - |a|].stop;
        CausesGrow(tick, ticks, 0);
      }
    }
  }

  /** A loop over the bytes from `from` on, of which `sent` are on the socket, is a path with the loop's result. */
  lemma {:induction false} LoopIsPath(t: Sender, item: Item, start: nat, size: nat, sent: nat, deadline: int,
                                      ticks: seq<SendTick>) returns (hops: seq<Hop>)
    requires Sendable(item.frame) && sent <= size && start + size <= |Wire(item.frame)|
    requires sent < size ==> Checking(t, item, start + sent)
    ensures var r := SendLoop(size, sent, deadline, true, ticks);
            IsPath(t, hops, Left(Advanced(t, item, start + sent, start + r.sent), item, start + r.sent, r.outcome))
    ensures FlagsFrom(hops, ticks)
    decreases |ticks|
  {
    hide Wire, IsPath, FlagsFrom, TakeTurn, Advanced, Left;
    AdvancedNone(t, item, start + sent);
    if sent == size || ticks == [] {
      hops := NoHop(t, ticks);
    } else {
      var n := start + sent;
      var turn := TakeTurn(ticks[0], size - sent, deadline, true);
      var first := TurnIsPath(t, item, n, ticks[0], size - sent, deadline);
      if turn.Proceed? {
        AdvancedChecks(t, item, n, n + turn.taken);
      }
      var u := Turned(t, item, n, turn);
      assert ticks == [ticks[0]] + ticks[1..];
      if turn.Leave? {
        hops := first;
        var none := NoHop(u, ticks[1..]);
        FlagsGrow(first, none, ticks[0], ticks[1..]);
        assert first + none == first;
      } else {
        var second := LoopIsPath(u, item, start, size, sent + turn.taken, deadline, ticks[1..]);
        var r := SendLoop(size, sent, deadline, true, ticks);
        AdvancedTwice(t, item, n, n + turn.taken, start + r.sent);
        PathsJoin(t, first, u, second,
                  Left(Advanced(t, item, n, start + r.sent), item, start + r.sent, r.outcome));
        hops := first + second;
        FlagsGrow(first, second, ticks[0], ticks[1..]);
      }
    }
  }

  /** send_frame_over_tcp as the sender's step relation has it: for any script the two loops are one path from
      the first check, that ends with the frame counted in the log, at the right failure, or still under way,
      with exactly the bytes on the socket that the loops have sent. */
  lemma SendIsPath(t: Sender, item: Item, deadline: int, ticks: seq<SendTick>) returns (hops: seq<Hop>)
    requires Checking(t, item, 0)
    ensures var r := SendParts(item.frame, deadline, ticks);
            && r.sent <= |Wire(item.frame)|
            && IsPath(t, hops, Left(Advanced(t, item, 0, r.sent), item, r.sent, r.outcome))
            && FlagsFrom(hops, ticks)
  {
    hide IsPath, HeaderOf, Encode, SendLoop;
    var f := item.frame;
    var header := SendLoop(WIRE_HEADER_SIZE, 0, deadline, true, ticks);
    hops := LoopIsPath(t, item, 0, WIRE_HEADER_SIZE, 0, deadline, ticks);
    if header.outcome == SendOk {
      var u := Advanced(t, item, 0, WIRE_HEADER_SIZE);
      var rest := ticks[header.used..];
      var second := LoopIsPath(u, item, WIRE_HEADER_SIZE, |f.data|, 0, deadline, rest);
      var r := SendParts(f, deadline, ticks);
      AdvancedTwice(t, item, 0, WIRE_HEADER_SIZE, r.sent);
      PathsJoin(t, hops, u, second, Left(Advanced(t, item, 0, r.sent), item, r.sent, r.outcome));
      FlagsJoin(hops, second, ticks, header.used);
      hops := hops + second;
    }
  }

  lemma FlagsJoin(a: seq<Hop>, b: seq<Hop>, ticks: seq<SendTick>, k: nat)
    requires k <= |ticks| && FlagsFrom(a, ticks) && FlagsFrom(b, ticks[k..])
    ensures FlagsFrom(a + b, ticks)
  {
    if i :| 0 <= i < |a + b| && (a + b)[i].stop {
      if i < |a| {
        assert a[i].stop;
      } else {
        assert b[i - |a|].stop;
        StopStaysSeen(ticks[..k], ticks[k..]);
        assert ticks[..k] + ticks[k..] == ticks;
      }
    }
  }
}
