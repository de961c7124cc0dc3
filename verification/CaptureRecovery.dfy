/** The two recovery policies (include/capture_recovery.hpp): the classes as they are written, and what
    their decisions mean in terms of the whole history of calls. */
module CaptureRecovery {

  datatype ErrorKind = Timeout | TemporaryUnavailable | DeviceUnavailable | StreamFailure | InvalidBufferMetadata

  // ---------------------------------------------------------------- capture errors

  class CaptureRecoveryController {
    const timeoutThreshold: int
    const maxRecoveryAttempts: int
    var consecutiveTimeouts: int
    var recoveryAttempts: int

    ghost predicate Valid()
      reads this
    {
      && timeoutThreshold > 0 && maxRecoveryAttempts > 0
      && consecutiveTimeouts >= 0
      && 0 <= recoveryAttempts <= maxRecoveryAttempts
    }

    constructor (timeoutThreshold: int, maxRecoveryAttempts: int)
      requires timeoutThreshold > 0 && maxRecoveryAttempts > 0
      ensures Valid() && consecutiveTimeouts == 0 && recoveryAttempts == 0
      ensures this.timeoutThreshold == timeoutThreshold && this.maxRecoveryAttempts == maxRecoveryAttempts
    {
      this.timeoutThreshold := timeoutThreshold;
      this.maxRecoveryAttempts := maxRecoveryAttempts;
      consecutiveTimeouts, recoveryAttempts := 0, 0;
    }

    /** Timeouts count up to the threshold; a busy driver never triggers; everything else triggers at once. */
    method ShouldReinitialize(kind: ErrorKind) returns (b: bool)
      requires Valid()
      modifies this`consecutiveTimeouts
      ensures Valid()
      ensures consecutiveTimeouts == old(consecutiveTimeouts) + (if kind == Timeout then 1 else 0)
      ensures b <==> (if kind == Timeout then consecutiveTimeouts >= timeoutThreshold else kind != TemporaryUnavailable)
    {
      match kind {
        case Timeout =>
          consecutiveTimeouts := consecutiveTimeouts + 1;
          b := consecutiveTimeouts >= timeoutThreshold;
        case TemporaryUnavailable => b := false;
        case _ => b := true;
      }
    }

    method BeginRecoveryAttempt() returns (b: bool)
      requires Valid()
      modifies this`recoveryAttempts
      ensures Valid()
      ensures b <==> old(recoveryAttempts) < maxRecoveryAttempts
      ensures recoveryAttempts == old(recoveryAttempts) + (if b then 1 else 0)
    {
      if recoveryAttempts >= maxRecoveryAttempts {
        return false;
      }
      recoveryAttempts := recoveryAttempts + 1;
      b := true;
    }

    /** on_capture_success and on_recovery_success, which do the same. */
    method OnSuccess()
      requires Valid()
      modifies this
      ensures Valid() && consecutiveTimeouts == 0 && recoveryAttempts == 0
    {
      consecutiveTimeouts, recoveryAttempts := 0, 0;
    }
  }

  // ---------------------------------------------------------------- histories

  /** A call on the invalid-frame policy. */
  datatype Event = Observed(valid: bool) | InvalidRecovered | ExternalRecovered

  datatype Policy = Policy(threshold: int, cooldown: int, maxRecoveries: int)

  /** The constructor throws on anything else. */
  predicate ValidPolicy(p: Policy)
  {
    p.threshold > 0 && p.cooldown >= 0 && p.maxRecoveries > 0
  }

  predicate IsRecovery(e: Event)
  {
    e.InvalidRecovered? || e.ExternalRecovered?
  }

  predicate IsInvalid(e: Event)
  {
    e == Observed(false)
  }

  /** The length of the stretch of invalid observations that the history ends with,
      uncut by a valid frame or a recovery. */
  function Streak(h: seq<Event>): (n: nat)
    ensures n <= |h|
  {
    if h != [] && IsInvalid(h[|h| - 1]) then Streak(h[..|h| - 1]) + 1 else 0
  }

  /** How many observations follow the latest recovery of either kind; all of them if there was none. */
  function Since(h: seq<Event>): (n: nat)
  {
    if h == [] || IsRecovery(h[|h| - 1]) then 0 else Since(h[..|h| - 1]) + 1
  }

  predicate HasRecovery(h: seq<Event>)
  {
    exists i :: 0 <= i < |h| && IsRecovery(h[i])
  }

  function Completed(h: seq<Event>): (n: nat)
  {
    if h == [] then 0 else Completed(h[..|h| - 1]) + (if h[|h| - 1].InvalidRecovered? then 1 else 0)
  }

  function Longest(h: seq<Event>): (n: nat)
  {
    if h == [] then 0
    else
      var before := Longest(h[..|h| - 1]);
      if Streak(h) > before then Streak(h) else before
  }

  datatype InvalidFrameDecision = NoDecision | Recover | SuppressedByCooldown | SuppressedByBudget

  /** The longest stretch so far, as far as the policy can see it. */
  function Peak(p: Policy, h: seq<Event>): (n: int)
  {
    if Longest(h) < p.threshold then Longest(h) else p.threshold
  }

  /** Observations left until the cooldown is over. */
  function Cooling(p: Policy, h: seq<Event>): (n: int)
  {
    if HasRecovery(h) && Since(h) < p.cooldown then p.cooldown - Since(h) else 0
  }

  function Mod(n: nat, t: int): (r: nat)
    requires t > 0
    ensures r < t
  {
    n % t
  }

  /** The decision on an invalid frame, from the history alone. */
  function Decide(p: Policy, h: seq<Event>, valid: bool): (d: InvalidFrameDecision)
    requires ValidPolicy(p)
  {
    if valid || Mod(Streak(h) + 1, p.threshold) != 0 then NoDecision
    else if HasRecovery(h) && Since(h) + 1 < p.cooldown then SuppressedByCooldown
    else if Completed(h) >= p.maxRecoveries then SuppressedByBudget
    else Recover
  }

  // ---------------------------------------------------------------- invalid frames

  class InvalidFrameRecoveryController {
    const policy: Policy
    var consecutiveInvalid: int
    var peakInvalid: int
    var cooldownRemaining: int
    var recoveriesCompleted: int
    var suppressedByCooldown: int
    var suppressedByBudget: int
    ghost var history: seq<Event>

    /** The counters are determined by the history. */
    ghost predicate Valid()
      reads this
    {
      && ValidPolicy(policy)
      && consecutiveInvalid == Mod(Streak(history), policy.threshold)
      && peakInvalid == Peak(policy, history)
      && cooldownRemaining == Cooling(policy, history)
      && recoveriesCompleted == Completed(history)
      && suppressedByCooldown >= 0 && suppressedByBudget >= 0
    }

    constructor (policy: Policy)
      requires ValidPolicy(policy)
      ensures Valid() && this.policy == policy && history == []
      ensures suppressedByCooldown == 0 && suppressedByBudget == 0
    {
      this.policy := policy;
      consecutiveInvalid, peakInvalid, cooldownRemaining := 0, 0, 0;
      recoveriesCompleted, suppressedByCooldown, suppressedByBudget := 0, 0, 0;
      history := [];
    }

    method Observe(frameValid: bool) returns (d: InvalidFrameDecision)
      requires Valid()
      modifies this
      ensures Valid() && history == old(history) + [Observed(frameValid)]
      ensures d == Decide(policy, old(history), frameValid)
      ensures recoveriesCompleted == old(recoveriesCompleted)
      ensures (d == Recover ==> recoveriesCompleted < policy.maxRecoveries)
      ensures suppressedByCooldown == old(suppressedByCooldown) + (if d == SuppressedByCooldown then 1 else 0)
      ensures suppressedByBudget == old(suppressedByBudget) + (if d == SuppressedByBudget then 1 else 0)
    {
      ObservedCounters(policy, history, frameValid);
      hide Mod, Streak, Completed, Peak, Cooling, Decide;
      history := history + [Observed(frameValid)];
      if cooldownRemaining > 0 {
        cooldownRemaining := cooldownRemaining - 1;
      }
      if frameValid {
        consecutiveInvalid := 0;
        return NoDecision;
      }
      consecutiveInvalid := consecutiveInvalid + 1;
      if consecutiveInvalid > peakInvalid {
        peakInvalid := consecutiveInvalid;
      }
      if consecutiveInvalid < policy.threshold {
        return NoDecision;
      }
      consecutiveInvalid := 0;
      if cooldownRemaining > 0 {
        suppressedByCooldown := suppressedByCooldown + 1;
        return SuppressedByCooldown;
      }
      if recoveriesCompleted >= policy.maxRecoveries {
        suppressedByBudget := suppressedByBudget + 1;
        return SuppressedByBudget;
      }
      d := Recover;
    }

    /** on_invalid_frame_recovery_success and on_external_recovery_success. */
    method OnRecoverySuccess(invalidFrameTrigger: bool)
      requires Valid()
      modifies this`consecutiveInvalid, this`cooldownRemaining, this`recoveriesCompleted, this`history
      ensures Valid()
      ensures history == old(history) + [if invalidFrameTrigger then InvalidRecovered else ExternalRecovered]
      ensures recoveriesCompleted == old(recoveriesCompleted) + (if invalidFrameTrigger then 1 else 0)
    {
      RecoveredCounters(policy, history, if invalidFrameTrigger then InvalidRecovered else ExternalRecovered);
      hide Mod, Streak, Completed, Peak, Cooling;
      consecutiveInvalid := 0;
      cooldownRemaining := policy.cooldown;
      if invalidFrameTrigger {
        recoveriesCompleted := recoveriesCompleted + 1;
      }
      history := history + [if invalidFrameTrigger then InvalidRecovered else ExternalRecovered];
    }
  }

  lemma ObservedHistory(h: seq<Event>, valid: bool)
    ensures var h' := h + [Observed(valid)];
            && Streak(h') == (if valid then 0 else Streak(h) + 1)
            && Since(h') == Since(h) + 1
            && (HasRecovery(h') <==> HasRecovery(h))
            && Completed(h') == Completed(h)
            && Longest(h') == (if Streak(h') > Longest(h) then Streak(h') else Longest(h))
  {
    var h' := h + [Observed(valid)];
    assert h'[..|h' | - 1] == h;
    assert forall i :: 0 <= i < |h| ==> h'[i] == h[i];
  }

  /** One observation, counter by counter: what the method computes is what the history says. */
  lemma ObservedCounters(p: Policy, h: seq<Event>, valid: bool)
    requires ValidPolicy(p)
    ensures var h', run := h + [Observed(valid)], Mod(Streak(h), p.threshold) + 1;
            && Mod(Streak(h'), p.threshold) == (if valid || run == p.threshold then 0 else run)
            && Peak(p, h') == (if valid || run <= Peak(p, h) then Peak(p, h) else run)
            && Cooling(p, h') == (if Cooling(p, h) > 0 then Cooling(p, h) - 1 else 0)
            && Completed(h') == Completed(h)
            && Decide(p, h, valid) == (if valid || run < p.threshold then NoDecision
                                       else if Cooling(p, h') > 0 then SuppressedByCooldown
                                       else if Completed(h) >= p.maxRecoveries then SuppressedByBudget
                                       else Recover)
  {
    ObservedHistory(h, valid);
    NextResidue(Streak(h), p.threshold);
    LongestBound(h);
    hide Mod, Streak, Since, HasRecovery, Completed, Longest;
  }

  lemma RecoveredHistory(h: seq<Event>, e: Event)
    requires IsRecovery(e)
    ensures var h' := h + [e];
            && Streak(h') == 0 && Since(h') == 0 && HasRecovery(h')
            && Completed(h') == Completed(h) + (if e.InvalidRecovered? then 1 else 0)
            && Longest(h') == Longest(h)
  {
    var h' := h + [e];
    assert h'[..|h'| - 1] == h && h'[|h'| - 1] == e;
  }

  lemma RecoveredCounters(p: Policy, h: seq<Event>, e: Event)
    requires ValidPolicy(p) && IsRecovery(e)
    ensures var h' := h + [e];
            && Mod(Streak(h'), p.threshold) == 0
            && Peak(p, h') == Peak(p, h)
            && Cooling(p, h') == p.cooldown
            && Completed(h') == Completed(h) + (if e.InvalidRecovered? then 1 else 0)
  {
    RecoveredHistory(h, e);
    NextResidue(0, p.threshold);
    hide Mod, Streak, Since, HasRecovery, Completed, Longest;
  }

  lemma NextResidue(n: nat, t: int)
    requires t > 0
    ensures Mod(n + 1, t) == if Mod(n, t) + 1 < t then Mod(n, t) + 1 else 0
    ensures n < t ==> Mod(n, t) == n
    ensures Mod(0, t) == 0
  {
    var q, r := n / t, Mod(n, t);
    assert n == q * t + r;
    hide Mod;
    assert (q + 1) * t == q * t + t;
    if r + 1 < t {
      Residue(n + 1, t, q, r + 1);
    } else {
      Residue(n + 1, t, q + 1, 0);
    }
    Residue(0, t, 0, 0);
    if n < t {
      Residue(n, t, 0, n);
    }
  }

  lemma Residue(n: nat, t: int, q: int, r: int)
    requires t > 0 && 0 <= r < t && n == q * t + r
    ensures Mod(n, t) == r
  {
    var q', r' := n / t, n % t;
    assert (q - q') * t == r' - r;
    assert q - q' >= 1 ==> (q - q') * t >= t;
    assert q - q' <= -1 ==> (q - q') * t <= -t;
  }

  lemma LongestBound(h: seq<Event>)
    ensures Streak(h) <= Longest(h)
  {
  }

  // ---------------------------------------------------------------- what the decisions guarantee

  /** The stretch is what it says: its observations are all invalid, and the call before it is not. */
  lemma {:induction false} StreakMeaning(h: seq<Event>)
    ensures forall i :: |h| - Streak(h) <= i < |h| ==> IsInvalid(h[i])
    ensures Streak(h) < |h| ==> !IsInvalid(h[|h| - Streak(h) - 1])
  {
    if h != [] && IsInvalid(h[|h| - 1]) {
      StreakMeaning(h[..|h| - 1]);
    }
  }

  lemma {:induction false} StreakWithinSince(h: seq<Event>)
    ensures Streak(h) <= Since(h)
  {
    if h != [] && IsInvalid(h[|h| - 1]) {
      StreakWithinSince(h[..|h| - 1]);
    }
  }

  lemma MultipleIsLarge(n: nat, t: int)
    requires t > 0 && Mod(n + 1, t) == 0
    ensures n + 1 >= t
  {
  }

  /** A Recover decision follows threshold consecutive invalid observations, and comes at least
      max(threshold, cooldown) observations after the latest recovery of either kind. */
  lemma RecoverIsRateLimited(p: Policy, h: seq<Event>)
    requires ValidPolicy(p) && Decide(p, h, false) == Recover
    ensures p.threshold - 1 <= |h|
    ensures forall i :: |h| - (p.threshold - 1) <= i < |h| ==> IsInvalid(h[i])
    ensures Since(h) + 1 >= p.threshold
    ensures HasRecovery(h) ==> Since(h) + 1 >= p.cooldown
    ensures Completed(h) < p.maxRecoveries
  {
    MultipleIsLarge(Streak(h), p.threshold);
    StreakMeaning(h);
    StreakWithinSince(h);
  }

  /** The lengths of the uncut invalid stretches of a history, in order. */
  function Stretches(h: seq<Event>): (s: seq<nat>)
    ensures Streak(h) > 0 ==> s != [] && s[|s| - 1] == Streak(h)
  {
    if h == [] then []
    else
      var before := Stretches(h[..|h| - 1]);
      if !IsInvalid(h[|h| - 1]) then before
      else if Streak(h[..|h| - 1]) == 0 then before + [1]
      else before[..|before| - 1] + [before[|before| - 1] + 1]
  }

  /** The sum of floor(length / t). */
  function Quota(s: seq<nat>, t: int): (n: nat)
    requires t > 0
  {
    if s == [] then 0 else Quota(s[..|s| - 1], t) + s[|s| - 1] / t
  }

  /** How many observations of the history led to a decision. */
  function Decisions(p: Policy, h: seq<Event>): (n: nat)
    requires ValidPolicy(p)
  {
    if h == [] then 0
    else
      var before, last := h[..|h| - 1], h[|h| - 1];
      Decisions(p, before) + (if last.Observed? && Decide(p, before, last.valid) != NoDecision then 1 else 0)
  }

  lemma NextQuotient(n: nat, t: int)
    requires t > 0
    ensures (n + 1) / t == n / t + (if Mod(n + 1, t) == 0 then 1 else 0)
  {
    NextResidue(n, t);
    var q, r := n / t, n % t;
    assert n + 1 == q * t + (r + 1);
    assert n + 1 == ((n + 1) / t) * t + (n + 1) % t;
    var d := (n + 1) / t - q;
    assert d * t == r + 1 - (n + 1) % t;
    assert d >= 2 ==> d * t >= 2 * t;
    assert d <= -1 ==> d * t <= -t;
    assert d == 0 ==> d * t == 0;
    assert d == 1 ==> d * t == t;
  }

  lemma QuotaSnoc(s: seq<nat>, x: nat, t: int)
    requires t > 0
    ensures Quota(s + [x], t) == Quota(s, t) + x / t
  {
    assert (s + [x])[..|s|] == s;
  }

  /** One more invalid observation lengthens the last stretch by one, or starts a new one. */
  lemma StretchGrows(h: seq<Event>, t: int)
    requires t > 0 && h != [] && IsInvalid(h[|h| - 1])
    ensures var before := h[..|h| - 1];
            Quota(Stretches(h), t) == Quota(Stretches(before), t) + (Streak(before) + 1) / t - Streak(before) / t
  {
    hide Quota;
    var before := h[..|h| - 1];
    var s, n := Stretches(before), Streak(before);
    if n == 0 {
      QuotaSnoc(s, 1, t);
      assert 0 / t == 0;
    } else {
      var front := s[..|s| - 1];
      assert s == front + [n] && Stretches(h) == front + [n + 1];
      QuotaSnoc(front, n, t);
      QuotaSnoc(front, n + 1, t);
    }
  }

  /** In every history the decisions number the sum of floor(length / threshold) over the uncut invalid stretches. */
  lemma {:induction false} DecisionsMatchStretches(p: Policy, h: seq<Event>)
    requires ValidPolicy(p)
    ensures Decisions(p, h) == Quota(Stretches(h), p.threshold)
  {
    hide HasRecovery, Since, Completed, Quota, Streak, Mod;
    if h != [] {
      var before, last := h[..|h| - 1], h[|h| - 1];
      DecisionsMatchStretches(p, before);
      if IsInvalid(last) {
        NextQuotient(Streak(before), p.threshold);
        StretchGrows(h, p.threshold);
      }
    } else {
      NoQuota(p.threshold);
    }
  }

  lemma NoQuota(t: int)
    requires t > 0
    ensures Quota([], t) == 0
  {
  }

  /** What was observed, in order. */
  function Observations(h: seq<Event>): (s: seq<bool>)
  {
    if h == [] then []
    else
      var last := h[|h| - 1];
      Observations(h[..|h| - 1]) + if last.Observed? then [last.valid] else []
  }

  /** How many observations of the history led to the decision to recover. */
  function Recovers(p: Policy, h: seq<Event>): (n: nat)
    requires ValidPolicy(p)
  {
    if h == [] then 0
    else
      var before, last := h[..|h| - 1], h[|h| - 1];
      Recovers(p, before) + if last.Observed? && Decide(p, before, last.valid) == Recover then 1 else 0
  }

  lemma OneMoreEvent(p: Policy, h: seq<Event>, e: Event)
    requires ValidPolicy(p)
    ensures Observations(h + [e]) == Observations(h) + if e.Observed? then [e.valid] else []
    ensures Recovers(p, h + [e])
         == Recovers(p, h) + if e.Observed? && Decide(p, h, e.valid) == Recover then 1 else 0
  {
    hide Decide;
    assert (h + [e])[..|h|] == h;
  }

  /** The latest recovery is where Since says: everything behind it is an observation. */
  lemma {:induction false} SinceMeaning(h: seq<Event>)
    ensures Since(h) <= |h| && (HasRecovery(h) <==> Since(h) < |h|)
    ensures forall i :: |h| - Since(h) <= i < |h| ==> h[i].Observed?
    ensures Since(h) < |h| ==> IsRecovery(h[|h| - Since(h) - 1])
  {
    if h != [] && !IsRecovery(h[|h| - 1]) {
      var before := h[..|h| - 1];
      SinceMeaning(before);
      assert forall i :: 0 <= i < |before| ==> h[i] == before[i];
    }
  }

  /** The longest stretch is the longest that any part of the history ends with. */
  lemma {:induction false} LongestMeaning(h: seq<Event>) returns (at: nat)
    ensures forall i :: 0 <= i <= |h| ==> Streak(h[..i]) <= Longest(h)
    ensures at <= |h| && Streak(h[..at]) == Longest(h)
  {
    assert h[..|h|] == h;
    if h == [] {
      at := 0;
    } else {
      var before := h[..|h| - 1];
      at := LongestMeaning(before);
      assert forall i :: 0 <= i <= |before| ==> h[..i] == before[..i];
      if Streak(h) > Longest(before) {
        at := |h|;
      }
    }
  }

  /** The budget counts the policy's own recoveries. */
  lemma {:induction false} CompletedMeaning(h: seq<Event>)
    ensures Completed(h) == multiset(h)[InvalidRecovered]
  {
    if h != [] {
      CompletedMeaning(h[..|h| - 1]);
      assert h == h[..|h| - 1] + [h[|h| - 1]];
    }
  }

  /** The last n calls are the stretch of invalid frames that the history ends with. */
  predicate EndsInvalid(h: seq<Event>, n: nat)
  {
    && n <= |h| && (forall i :: |h| - n <= i < |h| ==> IsInvalid(h[i]))
    && (n < |h| ==> !IsInvalid(h[|h| - n - 1]))
  }

  lemma StreakUnique(h: seq<Event>, n: nat)
    requires EndsInvalid(h, n)
    ensures n == Streak(h)
  {
    StreakMeaning(h);
    hide Streak;
  }

  /** Every recovery lies at least d calls back. */
  predicate RecoveriesBefore(h: seq<Event>, d: int)
  {
    forall i :: 0 <= i < |h| && IsRecovery(h[i]) ==> |h| - i >= d
  }

  lemma CooledDown(h: seq<Event>, d: int)
    ensures RecoveriesBefore(h, d) <==> (HasRecovery(h) ==> Since(h) + 1 >= d)
  {
    SinceMeaning(h);
    hide Since;
    if HasRecovery(h) {
      assert IsRecovery(h[|h| - Since(h) - 1]);
    }
  }

  /** Exactly when the policy decides to recover, in terms of the calls themselves: the invalid frame completes a
      multiple of threshold invalid frames in a row, every recovery of either kind lies at least cooldown calls
      back, and the policy's own recoveries are fewer than the budget. */
  lemma RecoverIff(p: Policy, h: seq<Event>, valid: bool, n: nat)
    requires ValidPolicy(p) && EndsInvalid(h, n)
    ensures Decide(p, h, valid) == Recover
            <==> (&& !valid && (n + 1) % p.threshold == 0 && RecoveriesBefore(h, p.cooldown)
                  && multiset(h)[InvalidRecovered] < p.maxRecoveries)
    ensures Decide(p, h, valid) == SuppressedByCooldown
            <==> !valid && (n + 1) % p.threshold == 0 && !RecoveriesBefore(h, p.cooldown)
  {
    StreakUnique(h, n);
    CooledDown(h, p.cooldown);
    CompletedMeaning(h);
    hide Streak, Since, HasRecovery, RecoveriesBefore, Completed, EndsInvalid;
  }

  /** A history in which the policy's own recoveries only follow its Recover decisions. */
  ghost predicate Obeyed(p: Policy, h: seq<Event>)
    requires ValidPolicy(p)
  {
    forall i :: 0 <= i < |h| && h[i].InvalidRecovered? ==>
      i > 0 && h[i - 1] == Observed(false) && Decide(p, h[..i - 1], false) == Recover
  }

  /** Then the budget is never exceeded. */
  lemma {:induction false} BudgetHolds(p: Policy, h: seq<Event>)
    requires ValidPolicy(p) && Obeyed(p, h)
    ensures Completed(h) <= p.maxRecoveries
  {
    hide Streak, Since, HasRecovery;
    if h != [] {
      var n := |h| - 1;
      PrefixObeys(p, h);
      BudgetHolds(p, h[..n]);
      if h[n].InvalidRecovered? {
        assert h[..n][..n - 1] == h[..n - 1];
        assert h[..n][n - 1] == Observed(false);
        assert Completed(h[..n]) == Completed(h[..n - 1]);
      }
    }
  }

  lemma PrefixObeys(p: Policy, h: seq<Event>)
    requires ValidPolicy(p) && Obeyed(p, h) && h != []
    ensures Obeyed(p, h[..|h| - 1])
  {
    hide Decide;
    var h' := h[..|h| - 1];
    forall i | 0 <= i < |h'| && h'[i].InvalidRecovered?
      ensures i > 0 && h'[i - 1] == Observed(false) && Decide(p, h'[..i - 1], false) == Recover
    {
      assert h[i].InvalidRecovered?;
      assert h'[..i - 1] == h[..i - 1];
    }
  }
}
