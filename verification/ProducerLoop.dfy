/** The producer thread with its camera (src/main.cpp:748-946): when it rebuilds the stream, what it can
    rely on at every capture, and how the recovery counters are bounded over the whole run.
    stop_requested reads true from some load on; that load is an arbitrary parameter, so the results
    hold for every finite part of every run, also of runs that are never stopped. */
module ProducerLoop {
  import opened Bytes
  import opened Frames
  import opened CaptureRecovery
  import opened Camera

  datatype Config = Config(frameCount: nat, recoveryEnabled: bool, timeoutThreshold: int,
                           policy: Policy, maxAttempts: int, mmapBuffers: nat)

  /** run_pipeline rejects anything else. */
  predicate ValidConfig(cfg: Config)
  {
    cfg.frameCount > 0 && cfg.timeoutThreshold > 0 && ValidPolicy(cfg.policy) && cfg.maxAttempts > 0
  }

  datatype Exit = LoopEnded | ThreadThrew

  class Producer {
    const cfg: Config
    const camera: CameraDevice
    const recovery: CaptureRecoveryController
    const invalid: InvalidFrameRecoveryController
    const stopAt: nat             // stop_requested is true from this load on
    var loads: nat                // loads of stop_requested so far
    var produced: nat
    var attempts: nat             // stats.camera_recovery_attempts
    var successes: nat            // stats.camera_recovery_successes, and reconnect_count
    var failures: nat             // stats.camera_recovery_failures
    var invalidRecoveries: nat    // stats.camera_invalid_frame_recoveries
    ghost var captures: seq<CaptureResult>  // what every call of capture_frame_copy gave
    ghost var frames: seq<Frame>  // what was pushed into the ring
    ghost var ready: seq<bool>    // whether the camera was ready at each call of capture_frame_copy
    ghost var rebuilds: seq<nat>  // how many attempts each rebuild made

    /** Any later load of the flag reads true. */
    ghost predicate Stopped()
      reads this
    {
      loads >= stopAt
    }

    /** What holds throughout the thread. */
    ghost predicate Valid()
      reads this, camera, camera.kernel, recovery, invalid
    {
      && ValidConfig(cfg)
      && camera.Valid()
      && recovery.Valid() && recovery.timeoutThreshold == cfg.timeoutThreshold
      && recovery.maxRecoveryAttempts == cfg.maxAttempts
      && invalid.Valid() && invalid.policy == cfg.policy
      && produced == |frames| <= cfg.frameCount
      && Attentive(cfg, invalid.history, frames, invalidRecoveries)
      && (forall b :: b in ready ==> b)
      && (forall n :: n in rebuilds ==> n <= cfg.maxAttempts)
      && invalid.recoveriesCompleted <= cfg.policy.maxRecoveries
      && recovery.consecutiveTimeouts <= cfg.timeoutThreshold
    }

    /** What holds at the head of the loop: the books balance, and the camera is ready unless the
        thread is about to see the stop. */
    ghost predicate AtHead()
      reads this, camera, camera.kernel, recovery, invalid
    {
      && Valid()
      && frames == FramesIn(captures) && |ready| == |captures|
      && successes + failures <= attempts <= successes + failures + (if Stopped() then 1 else 0)
      && invalid.recoveriesCompleted <= invalidRecoveries
         <= invalid.recoveriesCompleted + (if Stopped() then 1 else 0)
      && invalidRecoveries <= cfg.policy.maxRecoveries
      && (!Stopped() ==> camera.Ready() && recovery.recoveryAttempts == 0
                         && recovery.consecutiveTimeouts < cfg.timeoutThreshold)
    }

    /** run_pipeline starts the thread with a streaming camera. */
    constructor (cfg: Config, camera: CameraDevice, stopAt: nat)
      requires ValidConfig(cfg) && camera.Ready()
      ensures AtHead() && this.cfg == cfg && this.camera == camera && this.stopAt == stopAt
      ensures fresh(recovery) && fresh(invalid) && frames == [] && ready == [] && captures == [] && loads == 0
    {
      this.cfg, this.camera, this.stopAt := cfg, camera, stopAt;
      recovery := new CaptureRecoveryController(cfg.timeoutThreshold, cfg.maxAttempts);
      invalid := new InvalidFrameRecoveryController(cfg.policy);
      loads, produced, attempts, successes, failures, invalidRecoveries := 0, 0, 0, 0, 0, 0;
      frames, ready, rebuilds, captures := [], [], [], [];
    }

    /** One load of stop_requested. */
    method LoadStop() returns (stop: bool)
      modifies this`loads
      ensures loads == old(loads) + 1
      ensures stop <==> old(Stopped())
    {
      stop := loads >= stopAt;
      loads := loads + 1;
    }

    /** One attempt: drop everything, open and start again. */
    method Attempt(invalidFrameTrigger: bool) returns (ok: bool)
      requires Valid()
      requires invalidFrameTrigger ==> invalid.recoveriesCompleted < cfg.policy.maxRecoveries
      modifies this`successes, this`failures, camera, camera.kernel, recovery, invalid
      ensures Valid()
      ensures ok ==> camera.Ready() && recovery.recoveryAttempts == 0 && recovery.consecutiveTimeouts == 0
      ensures !ok ==> recovery.recoveryAttempts == old(recovery.recoveryAttempts)
      ensures !ok ==> recovery.consecutiveTimeouts == old(recovery.consecutiveTimeouts)
      ensures successes == old(successes) + (if ok then 1 else 0) && failures == old(failures) + (if ok then 0 else 1)
      ensures invalid.recoveriesCompleted == old(invalid.recoveriesCompleted)
                                             + (if ok && invalidFrameTrigger then 1 else 0)
      ensures invalid.history == old(invalid.history) + RecoveryEvents(ok, invalidFrameTrigger)
      ensures !ok ==> cfg.mmapBuffers == 0 || cfg.mmapBuffers > 32 || camera.kernel.faults > old(camera.kernel.faults)
    {
      RecoveryKeepsAttention(cfg, invalid.history, frames, invalidRecoveries, invalidFrameTrigger);
      assert invalid.history + [] == invalid.history;
      hide InvalidFrameRecoveryController.Valid, CaptureRecoveryController.Valid;
      hide CameraDevice.Valid, CameraDevice.Ready, CameraDevice.Released, Attentive;
      camera.Reset();
      var outcome := camera.Initialize(cfg.mmapBuffers);
      ok := outcome.Done?;
      if ok {
        successes := successes + 1;
        recovery.OnSuccess();
        invalid.OnRecoverySuccess(invalidFrameTrigger);
      } else {
        failures := failures + 1;
      }
    }

    /** rebuild_camera. It starts with a fresh budget, makes at most max attempts, and either leaves a ready
        camera, or was stopped, or has used up its attempts. */
    method Rebuild(invalidFrameTrigger: bool) returns (recovered: bool, ghost interrupted: bool)
      requires Valid() && recovery.recoveryAttempts == 0
      requires invalidFrameTrigger ==> invalid.recoveriesCompleted < cfg.policy.maxRecoveries
      modifies this`loads, this`attempts, this`successes, this`failures, this`rebuilds,
               camera, camera.kernel, recovery, invalid
      ensures Valid() && loads >= old(loads)
      ensures recovered ==> camera.Ready() && recovery.recoveryAttempts == 0 && recovery.consecutiveTimeouts == 0
      ensures !recovered ==> recovery.consecutiveTimeouts == old(recovery.consecutiveTimeouts)
      ensures successes == old(successes) + (if recovered then 1 else 0)
      ensures attempts - old(attempts)
           == (successes - old(successes)) + (failures - old(failures)) + (if interrupted then 1 else 0)
      ensures attempts - old(attempts) <= cfg.maxAttempts
      ensures interrupted ==> !recovered && Stopped()
      ensures !recovered ==> Stopped() || failures == old(failures) + cfg.maxAttempts
      ensures invalid.recoveriesCompleted == old(invalid.recoveriesCompleted)
                                             + (if recovered && invalidFrameTrigger then 1 else 0)
      ensures invalid.history == old(invalid.history) + RecoveryEvents(recovered, invalidFrameTrigger)
      ensures rebuilds == old(rebuilds) + [attempts - old(attempts)]
    {
      hide InvalidFrameRecoveryController.Valid, CaptureRecoveryController.Valid;
      hide CameraDevice.Valid, CameraDevice.Ready, Attentive;
      recovered, interrupted := false, false;
      ghost var made := 0;
      while true
        invariant Valid() && loads >= old(loads) && rebuilds == old(rebuilds)
        invariant recovery.recoveryAttempts == made <= cfg.maxAttempts
        invariant attempts == old(attempts) + made && failures == old(failures) + made && successes == old(successes)
        invariant invalid.recoveriesCompleted == old(invalid.recoveriesCompleted)
        invariant recovery.consecutiveTimeouts == old(recovery.consecutiveTimeouts)
        invariant invalid.history == old(invalid.history) + RecoveryEvents(false, invalidFrameTrigger)
        decreases cfg.maxAttempts - made
      {
        var stop := LoadStop();
        if stop {
          break;
        }
        var allowed := recovery.BeginRecoveryAttempt();
        if !allowed {
          break;
        }
        attempts := attempts + 1;
        made := made + 1;
        stop := LoadStop();        // sleep_interruptibly
        if stop {
          interrupted := true;
          break;
        }
        recovered := Attempt(invalidFrameTrigger);
        if recovered {
          break;
        }
      }
      rebuilds := rebuilds + [made];
    }

    /** A frame was captured: observe it, push it, count it, and recover if the policy says so. */
    method HandleFrame(f: Frame) returns (threw: bool)
      requires Valid() && camera.Ready() && produced < cfg.frameCount
      requires captures != [] && captures[|captures| - 1] == Captured(f)
      requires frames == FramesIn(captures[..|captures| - 1]) && |ready| == |captures|
      requires successes + failures == attempts && invalidRecoveries == invalid.recoveriesCompleted
      modifies this, camera, camera.kernel, recovery, invalid
      ensures frames == old(frames) + [f] && ready == old(ready) && captures == old(captures)
      ensures var due := Decide(cfg.policy, old(invalid.history), IsUsable(f)) == Recover && cfg.recoveryEnabled;
              && invalidRecoveries == old(invalidRecoveries) + (if due then 1 else 0)
              && |rebuilds| == |old(rebuilds)| + (if due then 1 else 0)
              && (threw ==> due && rebuilds[|rebuilds| - 1] == cfg.maxAttempts)
      ensures old(invalid.history) + [Observed(IsUsable(f))] <= invalid.history
      ensures recovery.consecutiveTimeouts == 0
      ensures loads >= old(loads) && (old(Stopped()) ==> Stopped())
      ensures Valid()
      ensures !threw ==> AtHead()
      ensures invalidRecoveries <= cfg.policy.maxRecoveries
      ensures successes + failures <= attempts <= successes + failures + 1
    {
      hide InvalidFrameRecoveryController.Valid, CaptureRecoveryController.Valid;
      hide CameraDevice.Valid, CameraDevice.Ready;
      hide IsUsable, Decide, Attentive, FramesIn;
      ObservationCounts(cfg, invalid.history, frames, invalidRecoveries, f);
      OneMoreCapture(captures);
      recovery.OnSuccess();
      var decision := invalid.Observe(IsUsable(f));
      frames := frames + [f];
      produced := produced + 1;
      threw := false;
      if decision == Recover && cfg.recoveryEnabled {
        invalidRecoveries := invalidRecoveries + 1;
        var recovered;
        ghost var interrupted;
        recovered, interrupted := Rebuild(true);
        if !recovered {
          var stop := LoadStop();
          threw := !stop;
        }
      }
    }

    /** The capture failed: tolerate it, rebuild, or give up. */
    method HandleError(kind: ErrorKind) returns (threw: bool)
      requires Valid() && recovery.recoveryAttempts == 0 && recovery.consecutiveTimeouts < cfg.timeoutThreshold
      requires successes + failures == attempts && invalidRecoveries == invalid.recoveriesCompleted
      requires kind == Timeout || kind == TemporaryUnavailable ==> camera.Ready()
      requires frames == FramesIn(captures) && |ready| == |captures|
      modifies this`loads, this`attempts, this`successes, this`failures, this`rebuilds,
               camera, camera.kernel, recovery, invalid
      ensures Valid() && loads >= old(loads)
      ensures !threw ==> AtHead()
      ensures successes + failures <= attempts <= successes + failures + 1
      ensures var needed := if kind == Timeout then old(recovery.consecutiveTimeouts) + 1 >= cfg.timeoutThreshold
                            else kind != TemporaryUnavailable;
              && |rebuilds| == |old(rebuilds)| + (if needed && cfg.recoveryEnabled then 1 else 0)
              && (threw ==> needed && (!cfg.recoveryEnabled || rebuilds[|rebuilds| - 1] == cfg.maxAttempts))
              && (!needed ==> !threw && recovery.consecutiveTimeouts
                                       == old(recovery.consecutiveTimeouts) + if kind == Timeout then 1 else 0)
              && (needed && !cfg.recoveryEnabled ==> threw)
    {
      hide InvalidFrameRecoveryController.Valid, CameraDevice.Valid, CameraDevice.Ready, Attentive, FramesIn;
      var reinitialize := recovery.ShouldReinitialize(kind);
      if !reinitialize {
        return false;
      }
      if !cfg.recoveryEnabled {
        return true;
      }
      var recovered;
      ghost var interrupted;
      recovered, interrupted := Rebuild(false);
      if recovered {
        return false;
      }
      var stop := LoadStop();
      threw := !stop;
    }

    /** Why the thread gives up: the last capture failed in a way that is not recovered from, or the last rebuild
        used up its attempts. */
    ghost predicate GaveUp()
      reads this
    {
      && captures != []
      && (|| captures[|captures| - 1].OtherError?
          || (captures[|captures| - 1].CaptureError? && !cfg.recoveryEnabled)
          || (rebuilds != [] && rebuilds[|rebuilds| - 1] == cfg.maxAttempts))
    }

    /** One capture and what follows from it. */
    method CaptureOnce() returns (threw: bool)
      requires Valid() && camera.Ready() && produced < cfg.frameCount
      requires recovery.recoveryAttempts == 0 && recovery.consecutiveTimeouts < cfg.timeoutThreshold
      requires successes + failures == attempts && invalidRecoveries == invalid.recoveriesCompleted
      requires frames == FramesIn(captures) && |ready| == |captures|
      modifies this, camera, camera.kernel, recovery, invalid
      ensures Valid() && loads >= old(loads)
      ensures frames == FramesIn(captures) && |captures| == |old(captures)| + 1
      ensures successes + failures <= attempts <= successes + failures + 1
      ensures invalidRecoveries <= cfg.policy.maxRecoveries
      ensures if threw then GaveUp() else AtHead()
    {
      hide InvalidFrameRecoveryController.Valid, CaptureRecoveryController.Valid;
      hide CameraDevice.Valid, CameraDevice.Ready, Attentive, FramesIn, Decide, IsUsable;
      ready := ready + [camera.Ready()];
      var now: u64 := *;
      var r := camera.CaptureFrameCopy(now);
      ghost var before := captures;
      captures := captures + [r];
      OneMoreCapture(captures);
      assert captures[..|captures| - 1] == before;
      threw := true;
      match r {
        case Captured(f) => threw := HandleFrame(f);
        case CaptureError(kind) => threw := HandleError(kind);
        case OtherError =>
      }
    }

    /** The producer loop: at every call of capture_frame_copy the camera is open, streaming and has all its
        buffers queued, the recovery counters stay within their budgets for the whole run, every captured frame is
        pushed, and the invalid-frame policy sees exactly the usability of these frames and is obeyed. */
    method Run() returns (exit: Exit)
      requires AtHead() && loads == 0
      modifies this, camera, camera.kernel, recovery, invalid
      ensures Valid()
      ensures forall b :: b in ready ==> b
      ensures forall n :: n in rebuilds ==> n <= cfg.maxAttempts
      ensures successes + failures <= attempts <= successes + failures + 1
      ensures invalidRecoveries <= cfg.policy.maxRecoveries
      ensures recovery.consecutiveTimeouts <= cfg.timeoutThreshold
      ensures exit == LoopEnded ==> AtHead() && (produced == cfg.frameCount || Stopped())
      ensures frames == FramesIn(captures) && Attentive(cfg, invalid.history, frames, invalidRecoveries)
      ensures exit == ThreadThrew ==> GaveUp()
    {
      hide InvalidFrameRecoveryController.Valid, CaptureRecoveryController.Valid;
      hide CameraDevice.Valid, CameraDevice.Ready, Attentive, FramesIn;
      while produced < cfg.frameCount
        invariant AtHead()
        decreases if Stopped() then 0 else stopAt - loads
      {
        var stop := LoadStop();
        if stop {
          return LoopEnded;
        }
        var threw := CaptureOnce();
        if threw {
          return ThreadThrew;
        }
      }
      exit := LoopEnded;
    }
  }

  /** The invalid-frame policy has seen the usability of the captured frames, in order, and every decision to recover
      has started a rebuild, unless recovery is disabled. */
  predicate Attentive(cfg: Config, h: seq<Event>, frames: seq<Frame>, recoveries: nat)
  {
    && ValidPolicy(cfg.policy)
    && Observations(h) == Usabilities(frames)
    && recoveries == if cfg.recoveryEnabled then Recovers(cfg.policy, h) else 0
  }

  /** The events that a rebuild adds to the policy's history. */
  function RecoveryEvents(recovered: bool, invalidFrameTrigger: bool): (events: seq<Event>)
  {
    if !recovered then [] else if invalidFrameTrigger then [InvalidRecovered] else [ExternalRecovered]
  }

  /** Whether each frame is usable, in order. */
  function Usabilities(frames: seq<Frame>): (s: seq<bool>)
  {
    seq(|frames|, i requires 0 <= i < |frames| => IsUsable(frames[i]))
  }

  /** The frames among the results of capture_frame_copy, in order. */
  function FramesIn(captures: seq<CaptureResult>): (frames: seq<Frame>)
  {
    if captures == [] then []
    else
      var last := captures[|captures| - 1];
      FramesIn(captures[..|captures| - 1]) + if last.Captured? then [last.frame] else []
  }

  lemma OneMoreCapture(captures: seq<CaptureResult>)
    requires captures != []
    ensures var last := captures[|captures| - 1];
            FramesIn(captures) == FramesIn(captures[..|captures| - 1]) + if last.Captured? then [last.frame] else []
    ensures !captures[|captures| - 1].Captured? ==> FramesIn(captures) == FramesIn(captures[..|captures| - 1])
  {
  }

  lemma ObservationCounts(cfg: Config, h: seq<Event>, frames: seq<Frame>, recoveries: nat, f: Frame)
    requires Attentive(cfg, h, frames, recoveries)
    ensures var due := Decide(cfg.policy, h, IsUsable(f)) == Recover && cfg.recoveryEnabled;
            Attentive(cfg, h + [Observed(IsUsable(f))], frames + [f], recoveries + if due then 1 else 0)
  {
    hide IsUsable, Decide;
    OneMoreEvent(cfg.policy, h, Observed(IsUsable(f)));
  }

  lemma RecoveryKeepsAttention(cfg: Config, h: seq<Event>, frames: seq<Frame>, recoveries: nat, trigger: bool)
    requires Attentive(cfg, h, frames, recoveries)
    ensures Attentive(cfg, h + RecoveryEvents(true, trigger), frames, recoveries)
  {
    OneMoreEvent(cfg.policy, h, if trigger then InvalidRecovered else ExternalRecovered);
  }

  /** The camera's whole life in one program run, from main's setup to the destructor: whatever fails and
      however often the stream is rebuilt, in the end no descriptor and no mapping is left. */
  method CameraLifetime(cfg: Config, stopAt: nat) returns (kernel: Kernel)
    ensures kernel.openFds == {} && kernel.mapped == {}
  {
    hide CameraDevice.Valid, CameraDevice.Ready;
    kernel := new Kernel();
    var camera := new CameraDevice(kernel);
    var outcome := camera.Initialize(cfg.mmapBuffers);
    if outcome.Done? && ValidConfig(cfg) {
      var producer := new Producer(cfg, camera, stopAt);
      var exit := producer.Run();
    }
    camera.Reset();
  }
}
