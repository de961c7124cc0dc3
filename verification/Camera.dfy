/** The V4L2 camera (src/camera_device.cpp): who owns the descriptor, the mappings and the buffers.
    The kernel's answers are nondeterministic; its preconditions are the ownership rules, so every call
    the camera makes is proved to keep them. */
module Camera {
  import opened Options
  import opened Bytes
  import opened Frames
  import opened CaptureRecovery

  const NO_FD: int := -1
  const NULL: int := 0

  datatype DequeueResult =
    | Dequeued(index: u32, bytesUsed: u32, sequence: u32, flags: u32)
    | DequeueAgain
    | DequeueNoDevice
    | DequeueFailed

  /** What poll answers: an error (is the device gone?), a timeout, or events. */
  datatype Polled = PollError(gone: bool) | PollTimedOut | PollEvents(nval: bool, hup: bool, err: bool, readable: bool)

  predicate Readable(p: Polled)
  {
    p.PollEvents? && !p.nval && !p.hup && p.readable
  }

  datatype Format = Format(width: u32, height: u32, pixelFormat: u32)

  /** What the kernel holds for this process: open descriptors, live mappings, and the buffers that
      are in the driver's queue. */
  class Kernel {
    var openFds: set<int>
    var mapped: set<int>
    var queued: set<nat>
    var on: bool                       // the stream is on
    var nextFd: nat
    var nextAddress: nat
    var faults: nat                    // how many calls it has refused or answered with trouble
    var format: Format                 // the format it last agreed to
    var answers: seq<DequeueResult>    // its answers to VIDIOC_DQBUF
    var copied: seq<byte>              // the bytes last read from a mapping

    ghost predicate Valid()
      reads this
    {
      && (forall fd :: fd in openFds ==> 0 <= fd < nextFd)
      && (forall a :: a in mapped ==> 0 < a < nextAddress)
      && nextAddress > 0
    }

    constructor ()
      ensures Valid() && openFds == {} && mapped == {} && queued == {} && !on
    {
      openFds, mapped, queued, nextFd, nextAddress := {}, {}, {}, 0, 1;
      on, faults, format, answers, copied := false, 0, Format(0, 0, 0), [], [];
    }

    /** open(2): a new descriptor, or -1. A newly opened device has no buffers. */
    method Open() returns (fd: int)
      requires Valid()
      modifies this`openFds, this`nextFd, this`queued, this`faults
      ensures Valid()
      ensures fd == NO_FD || (fd >= 0 && fd !in old(openFds))
      ensures faults >= old(faults) && (fd == NO_FD ==> faults > old(faults))
      ensures openFds == old(openFds) + (if fd == NO_FD then {} else {fd})
      ensures queued == if fd == NO_FD then old(queued) else {}
    {
      var ok: bool := *;
      if !ok {
        faults := faults + 1;
        return NO_FD;
      }
      fd := nextFd;
      nextFd := nextFd + 1;
      openFds := openFds + {fd};
      queued := {};
    }

    /** close(2), only ever on an open descriptor. */
    method Close(fd: int)
      requires Valid() && fd in openFds
      modifies this`openFds, this`queued, this`on
      ensures Valid() && openFds == old(openFds) - {fd} && queued == {} && !on
    {
      on := false;
      openFds := openFds - {fd};
      queued := {};
    }

    /** VIDIOC_QUERYCAP, VIDIOC_S_FMT and VIDIOC_G_FMT: the driver agrees to some format, or refuses. */
    method Negotiate(fd: int) returns (ok: bool)
      requires Valid() && fd in openFds
      modifies this`format, this`faults
      ensures Valid() && faults == old(faults) + if ok then 0 else 1
    {
      ok := *;
      if ok {
        format := *;
      } else {
        faults := faults + 1;
      }
    }

    /** VIDIOC_REQBUFS: the driver grants some number of buffers, none of them queued; fewer than two are a fault. */
    method RequestBuffers(fd: int, count: nat) returns (ok: bool, granted: nat)
      requires Valid() && fd in openFds
      modifies this`queued, this`faults
      ensures Valid() && (ok ==> queued == {}) && (!ok ==> queued == old(queued))
      ensures faults == old(faults) + if ok && granted >= 2 then 0 else 1
    {
      ok, granted := *, *;
      if ok {
        queued := {};
      }
      if !ok || granted < 2 {
        faults := faults + 1;
      }
    }

    method QueryBuffer(fd: int, index: nat) returns (ok: bool, length: nat)
      requires Valid() && fd in openFds
      modifies this`faults
      ensures Valid() && faults == old(faults) + if ok then 0 else 1
    {
      ok, length := *, *;
      if !ok {
        faults := faults + 1;
      }
    }

    /** mmap(2): a new address, or NULL for MAP_FAILED, as it must be for length zero. */
    method Map(fd: int, length: nat) returns (address: int)
      requires Valid() && fd in openFds
      modifies this`mapped, this`nextAddress, this`faults
      ensures Valid() && faults == old(faults) + if address == NULL then 1 else 0
      ensures address == NULL || (address > 0 && address !in old(mapped) && length > 0)
      ensures mapped == old(mapped) + (if address == NULL then {} else {address})
    {
      var ok: bool := *;
      if !ok || length == 0 {
        faults := faults + 1;
        return NULL;
      }
      address := nextAddress;
      nextAddress := nextAddress + 1;
      mapped := mapped + {address};
    }

    /** munmap(2), only ever on a live mapping. */
    method Unmap(address: int)
      requires Valid() && address in mapped
      modifies this`mapped
      ensures Valid() && mapped == old(mapped) - {address}
    {
      mapped := mapped - {address};
    }

    /** VIDIOC_QBUF, never on a buffer that is queued already. */
    method QueueBuffer(fd: int, index: nat) returns (ok: bool)
      requires Valid() && fd in openFds && index !in queued
      modifies this`queued, this`faults
      ensures Valid() && queued == old(queued) + (if ok then {index} else {})
      ensures faults == old(faults) + if ok then 0 else 1
    {
      ok := *;
      if ok {
        queued := queued + {index};
      } else {
        faults := faults + 1;
      }
    }

    /** poll(2) for a readable buffer, with EINTR retried. */
    method Poll(fd: int) returns (p: Polled)
      requires Valid() && fd in openFds
      modifies this`faults
      ensures Valid() && faults == old(faults) + if Readable(p) then 0 else 1
    {
      p := *;
      if !Readable(p) {
        faults := faults + 1;
      }
    }

    /** VIDIOC_DQBUF: a buffer (from then on not in the queue), EAGAIN with nothing taken, or an error
        after which the queue may have changed. The index and the byte count are the driver's word. */
    method DequeueBuffer(fd: int) returns (r: DequeueResult)
      requires Valid() && fd in openFds
      modifies this`queued, this`faults, this`answers
      ensures Valid() && queued <= old(queued)
      ensures r.DequeueAgain? ==> queued == old(queued)
      ensures r.Dequeued? ==> queued == old(queued) - {r.index}
      ensures answers == old(answers) + [r] && faults == old(faults) + if r.Dequeued? then 0 else 1
    {
      r := *;
      answers := answers + [r];
      if !r.Dequeued? {
        faults := faults + 1;
      }
      if r.Dequeued? || r.DequeueFailed? || r.DequeueNoDevice? {
        var gone: nat := *;
        queued := queued - {if r.Dequeued? then r.index else gone};
      }
    }

    /** Copying the first n bytes of a mapping, never beyond its length; false if there is no memory for them. */
    method Copy(address: int, length: nat, n: nat) returns (ok: bool, content: seq<byte>)
      requires Valid() && (n == 0 || (address in mapped && n <= length))
      modifies this`copied, this`faults
      ensures Valid() && faults == old(faults) + if ok then 0 else 1
      ensures ok ==> |content| == n && copied == content
    {
      ok, content := *, *;
      if ok && |content| != n {
        content := seq(n, _ => 0);
      }
      if ok {
        copied := content;
      } else {
        faults := faults + 1;
      }
    }

    method StreamOn(fd: int) returns (ok: bool)
      requires Valid() && fd in openFds
      modifies this`faults, this`on
      ensures Valid() && faults == old(faults) + if ok then 0 else 1
      ensures on == (old(on) || ok)
    {
      ok := *;
      if ok {
        on := true;
      } else {
        faults := faults + 1;
      }
    }

    /** VIDIOC_STREAMOFF hands every buffer back. */
    method StreamOff(fd: int) returns (ok: bool)
      requires Valid() && fd in openFds
      modifies this`queued, this`on, this`faults
      ensures Valid() && queued == (if ok then {} else old(queued)) && on == (old(on) && !ok)
      ensures faults == old(faults) + if ok then 0 else 1
    {
      ok := *;
      if ok {
        queued, on := {}, false;
      } else {
        faults := faults + 1;
      }
    }
  }

  datatype MappedBuffer = MappedBuffer(start: int, length: nat)

  /** The addresses that a camera has to unmap. */
  function Addresses(buffers: seq<MappedBuffer>): (s: set<int>)
  {
    set i | 0 <= i < |buffers| && buffers[i].start != NULL :: buffers[i].start
  }

  predicate DistinctAddresses(buffers: seq<MappedBuffer>)
  {
    && (forall i :: 0 <= i < |buffers| ==> (buffers[i].start != NULL <==> buffers[i].length > 0))
    && (forall i, j :: 0 <= i < j < |buffers| && buffers[i].start != NULL ==> buffers[i].start != buffers[j].start)
  }

  /** The queued buffers are exactly the first n. */
  ghost predicate FirstQueued(queued: set<nat>, n: nat)
  {
    forall i: nat :: i in queued <==> i < n
  }

  datatype Outcome = Done | Failed

  datatype CaptureResult = Captured(frame: Frame) | CaptureError(kind: ErrorKind) | OtherError

  class CameraDevice {
    const kernel: Kernel
    var fd: int
    var buffers: seq<MappedBuffer>
    var streaming: bool
    var width: u32
    var height: u32
    var pixelFormat: u32

    /** The camera owns exactly what the kernel has handed out. */
    ghost predicate Valid()
      reads this, kernel
    {
      && kernel.Valid()
      && (fd == NO_FD || fd >= 0)
      && kernel.openFds == (if fd == NO_FD then {} else {fd})
      && kernel.mapped == Addresses(buffers)
      && DistinctAddresses(buffers)
      && (streaming ==> fd >= 0)
    }

    /** Open, streaming, every buffer mapped and every buffer in the driver's queue. */
    ghost predicate Ready()
      reads this, kernel
    {
      && Valid()
      && fd >= 0 && streaming && kernel.on
      && |buffers| >= 2
      && (forall i :: 0 <= i < |buffers| ==> buffers[i].start != NULL)
      && FirstQueued(kernel.queued, |buffers|)
    }

    ghost predicate Released()
      reads this, kernel
    {
      fd == NO_FD && buffers == [] && !streaming && kernel.openFds == {} && kernel.mapped == {}
    }

    constructor (kernel: Kernel)
      requires kernel.Valid() && kernel.openFds == {} && kernel.mapped == {}
      ensures Valid() && Released() && this.kernel == kernel
    {
      this.kernel := kernel;
      fd, buffers, streaming := NO_FD, [], false;
      width, height, pixelFormat := 0, 0, 0;
    }

    method StopStreaming()
      requires Valid()
      modifies this`streaming, kernel`queued, kernel`on, kernel`faults
      ensures Valid() && !streaming && kernel.faults >= old(kernel.faults)
      ensures old(streaming) ==> !kernel.on || kernel.faults > old(kernel.faults)
    {
      if fd < 0 || !streaming {
        return;
      }
      var ok := kernel.StreamOff(fd);
      streaming := false;
    }

    /** Every live mapping is unmapped, once. */
    method ReleaseMmapBuffers()
      requires Valid()
      modifies this`buffers, kernel`mapped
      ensures Valid() && buffers == [] && kernel.mapped == {}
    {
      var i := 0;
      while i < |buffers|
        invariant 0 <= i <= |buffers|
        invariant buffers == old(buffers)
        invariant kernel.Valid() && kernel.mapped == Addresses(buffers[i..])
      {
        AddressesStep(buffers, i);
        if buffers[i].start != NULL && buffers[i].length > 0 {
          kernel.Unmap(buffers[i].start);
        }
        i := i + 1;
      }
      buffers := [];
    }

    /** An open descriptor is closed, once. The streaming flag is left alone, so only a camera that
        does not stream is consistent afterwards. */
    method CloseDevice()
      requires Valid()
      modifies this`fd, kernel`openFds, kernel`queued, kernel`on
      ensures fd == NO_FD && kernel.openFds == {} && kernel.Valid()
      ensures old(fd) == NO_FD ==> kernel.queued == old(kernel.queued) && kernel.on == old(kernel.on)
      ensures old(fd) >= 0 ==> !kernel.on
      ensures Valid() <==> !streaming
    {
      if fd >= 0 {
        kernel.Close(fd);
        fd := NO_FD;
      }
    }

    /** Move assignment from a freshly constructed CameraDevice; the destructor does the same releases. */
    method Reset()
      requires Valid()
      modifies this, kernel
      ensures Valid() && Released() && kernel.faults >= old(kernel.faults)
      ensures old(fd) >= 0 ==> !kernel.on
    {
      StopStreaming();
      ReleaseMmapBuffers();
      CloseDevice();
      width, height, pixelFormat := 0, 0, 0;
    }

    /** open_device overwrites the descriptor without looking at it: only a closed camera stays leak-free. */
    method OpenDevice() returns (r: Outcome)
      requires Valid()
      modifies this`fd, kernel`openFds, kernel`nextFd, kernel`queued, kernel`faults
      ensures r.Done? <==> fd >= 0
      ensures kernel.faults >= old(kernel.faults) && (r.Failed? ==> kernel.faults > old(kernel.faults))
      ensures kernel.openFds == old(kernel.openFds) + (if fd >= 0 then {fd} else {})
      ensures old(fd) == NO_FD ==> Valid()
    {
      fd := kernel.Open();
      r := if fd < 0 then Failed else Done;
    }

    /** query_capability and set_format: the driver decides the format, and either call may fail. */
    method Configure() returns (r: Outcome)
      requires Valid()
      modifies this`width, this`height, this`pixelFormat, kernel`format, kernel`faults
      ensures Valid()
      ensures r.Done? ==> fd >= 0 && Format(width, height, pixelFormat) == kernel.format
      ensures kernel.faults >= old(kernel.faults) && (r.Failed? ==> fd < 0 || kernel.faults > old(kernel.faults))
    {
      if fd < 0 {
        return Failed;
      }
      var ok := kernel.Negotiate(fd);
      if !ok {
        return Failed;
      }
      width, height, pixelFormat := kernel.format.width, kernel.format.height, kernel.format.pixelFormat;
      r := Done;
    }

    /** requeue_buffer: the index must name a buffer; the caller must not own a queued one. */
    method RequeueBuffer(index: nat) returns (r: Outcome)
      requires Valid() && fd >= 0
      requires index !in kernel.queued
      modifies kernel`queued, kernel`faults
      ensures Valid()
      ensures r.Done? ==> index < |buffers|
      ensures kernel.faults >= old(kernel.faults)
      ensures r.Failed? ==> index >= |buffers| || kernel.faults > old(kernel.faults)
      ensures kernel.queued == old(kernel.queued) + (if r.Done? then {index} else {})
    {
      if index >= |buffers| {
        return Failed;
      }
      var ok := kernel.QueueBuffer(fd, index);
      r := if ok then Done else Failed;
    }

    /** init_mmap_buffers. Whatever fails part way, the camera still owns exactly what it mapped. */
    method InitMmapBuffers(requested: nat) returns (r: Outcome)
      requires Valid()
      modifies this`buffers, kernel`mapped, kernel`nextAddress, kernel`queued, kernel`faults
      ensures Valid()
      ensures kernel.faults >= old(kernel.faults)
      ensures r.Failed? ==> fd < 0 || requested == 0 || requested > 32 || kernel.faults > old(kernel.faults)
      ensures r.Done? ==> 0 < requested <= 32
      ensures r.Done? ==> fd >= 0 && |buffers| >= 2 && FirstQueued(kernel.queued, |buffers|)
                          && forall i :: 0 <= i < |buffers| ==> buffers[i].start != NULL
    {
      if fd < 0 || requested == 0 || requested > 32 {
        return Failed;
      }
      ReleaseMmapBuffers();
      var ok, granted := kernel.RequestBuffers(fd, requested);
      if !ok || granted < 2 {
        return Failed;
      }
      buffers := seq(granted, _ => MappedBuffer(NULL, 0));
      r := MapAll();
      if r.Failed? {
        return;
      }
      for i := 0 to granted
        invariant Valid() && fd == old(fd) && |buffers| == granted && kernel.faults >= old(kernel.faults)
        invariant FirstQueued(kernel.queued, i)
        invariant forall k :: 0 <= k < |buffers| ==> buffers[k].start != NULL
      {
        var queued := RequeueBuffer(i);
        if queued.Failed? {
          return Failed;
        }
      }
      r := Done;
    }

    method MapAll() returns (r: Outcome)
      requires Valid() && fd >= 0
      requires forall i :: 0 <= i < |buffers| ==> buffers[i] == MappedBuffer(NULL, 0)
      modifies this`buffers, kernel`mapped, kernel`nextAddress, kernel`faults
      ensures Valid() && |buffers| == old(|buffers|)
      ensures kernel.faults >= old(kernel.faults) && (r.Failed? ==> kernel.faults > old(kernel.faults))
      ensures r.Done? ==> forall i :: 0 <= i < |buffers| ==> buffers[i].start != NULL
    {
      for i := 0 to |buffers|
        invariant Valid() && |buffers| == old(|buffers|) && kernel.faults >= old(kernel.faults)
        invariant forall k :: 0 <= k < i ==> buffers[k].start != NULL
        invariant forall k :: i <= k < |buffers| ==> buffers[k] == MappedBuffer(NULL, 0)
      {
        var ok, length := kernel.QueryBuffer(fd, i);
        if !ok {
          return Failed;
        }
        var start := kernel.Map(fd, length);
        if start == NULL {
          return Failed;
        }
        AddressesUpdate(buffers, i, MappedBuffer(start, length));
        buffers := buffers[i := MappedBuffer(start, length)];
      }
      r := Done;
    }

    method StartStreaming() returns (r: Outcome)
      requires Valid()
      modifies this`streaming, kernel`faults, kernel`on
      ensures Valid()
      ensures r.Done? && !old(streaming) ==> kernel.on
      ensures r.Done? ==> streaming && fd >= 0 && buffers != []
      ensures r.Failed? ==> streaming == old(streaming)
      ensures kernel.faults >= old(kernel.faults)
      ensures r.Failed? ==> fd < 0 || buffers == [] || (!old(streaming) && kernel.faults > old(kernel.faults))
    {
      if fd < 0 || buffers == [] {
        return Failed;
      }
      if streaming {
        return Done;
      }
      var ok := kernel.StreamOn(fd);
      if !ok {
        return Failed;
      }
      streaming := true;
      r := Done;
    }

    /** initialize_pipeline_camera on a released camera: ready, or still owning exactly what it acquired. */
    method Initialize(requestedBuffers: nat) returns (r: Outcome)
      requires Valid() && Released()
      modifies this, kernel
      ensures Valid() && (r.Done? ==> Ready())
      ensures r.Done? ==> Format(width, height, pixelFormat) == kernel.format
      ensures kernel.faults >= old(kernel.faults)
      ensures r.Failed? ==> requestedBuffers == 0 || requestedBuffers > 32 || kernel.faults > old(kernel.faults)
    {
      r := OpenDevice();
      if r.Failed? { return; }
      r := Configure();
      if r.Failed? { return; }
      r := InitMmapBuffers(requestedBuffers);
      if r.Failed? { return; }
      r := StartStreaming();
    }

    /** dequeue_frame. The failure is exactly what poll, the driver and its metadata give; polling errors and EAGAIN
        take nothing from the driver; an oversized buffer is given back. */
    method DequeueFrame() returns (polled: Polled, r: DequeueResult, failure: Option<ErrorKind>)
      requires Valid() && fd >= 0
      modifies kernel`queued, kernel`faults, kernel`answers
      ensures Valid() && kernel.faults >= old(kernel.faults)
      ensures kernel.answers == old(kernel.answers) + if Readable(polled) then [r] else []
      ensures failure.Some? && failure != Some(InvalidBufferMetadata) ==> kernel.faults > old(kernel.faults)
      ensures failure.None? ==>
                && Readable(polled) && r.Dequeued? && r.index < |buffers| && r.bytesUsed <= buffers[r.index].length
                && kernel.queued == old(kernel.queued) - {r.index}
      ensures failure == Some(Timeout) || failure == Some(TemporaryUnavailable) ==> kernel.queued == old(kernel.queued)
      ensures failure == Some(Timeout) <==> polled.PollTimedOut?
      ensures failure == Some(TemporaryUnavailable) <==> Readable(polled) && r.DequeueAgain?
      ensures failure == Some(DeviceUnavailable) <==>
                || polled == PollError(true) || (polled.PollEvents? && (polled.nval || polled.hup))
                || (Readable(polled) && r.DequeueNoDevice?)
      ensures failure == Some(StreamFailure) <==>
                || polled == PollError(false) || (polled.PollEvents? && !polled.nval && !polled.hup && !polled.readable)
                || (Readable(polled) && r.DequeueFailed?)
      ensures failure == Some(InvalidBufferMetadata) <==>
                && Readable(polled) && r.Dequeued?
                && (r.index >= |buffers| || r.bytesUsed > buffers[r.index].length)
    {
      r := DequeueAgain;
      polled := kernel.Poll(fd);
      match polled {
        case PollError(gone) =>
          return polled, r, Some(if gone then DeviceUnavailable else StreamFailure);
        case PollTimedOut =>
          return polled, r, Some(Timeout);
        case PollEvents(nval, hup, err, readable) =>
          if nval || hup {
            return polled, r, Some(DeviceUnavailable);
          }
          if err && !readable {
            return polled, r, Some(StreamFailure);
          }
          if !readable {
            return polled, r, Some(StreamFailure);
          }
      }
      r := kernel.DequeueBuffer(fd);
      match r {
        case DequeueAgain => return polled, r, Some(TemporaryUnavailable);
        case DequeueNoDevice => return polled, r, Some(DeviceUnavailable);
        case DequeueFailed => return polled, r, Some(StreamFailure);
        case Dequeued(index, bytesUsed, _, _) =>
          if index >= |buffers| {
            return polled, r, Some(InvalidBufferMetadata);
          }
          if bytesUsed > buffers[index].length {
            var requeued := RequeueBuffer(index);  // try_requeue_buffer_noexcept ignores the result
            return polled, r, Some(InvalidBufferMetadata);
          }
      }
      failure := None;
    }

    /** capture_frame_copy with its buffer guard. A ready camera is ready again after a frame, and untouched
        after a timeout or a busy driver; after anything else it still owns exactly what it holds. */
    method CaptureFrameCopy(timestampNs: u64) returns (r: CaptureResult)
      requires Valid()
      modifies kernel`queued, kernel`faults, kernel`answers, kernel`copied
      ensures Valid() && kernel.faults >= old(kernel.faults)
      ensures r.OtherError? ==>
                || fd < 0 || !streaming || width == 0 || height == 0 || pixelFormat == 0
                || kernel.faults > old(kernel.faults)
      ensures r.CaptureError? && r.kind != InvalidBufferMetadata ==> kernel.faults > old(kernel.faults)
      ensures r.Captured? ==>
                && r.frame.data == kernel.copied
                && kernel.answers == old(kernel.answers)
                   + [Dequeued(r.frame.bufferIndex, r.frame.bytesUsed, r.frame.sequence, r.frame.flags)]
      ensures r.Captured? ==>
                && fd >= 0 && streaming && width != 0 && height != 0 && pixelFormat != 0
                && r.frame.width == width && r.frame.height == height && r.frame.pixelFormat == pixelFormat
                && |r.frame.data| == r.frame.bytesUsed && r.frame.bufferIndex < |buffers|
                && |r.frame.data| <= buffers[r.frame.bufferIndex].length
                && r.frame.captureTimestampNs == timestampNs
      ensures old(Ready()) && r.Captured? ==> Ready()
      ensures r == CaptureError(Timeout) || r == CaptureError(TemporaryUnavailable) ==>
                kernel.queued == old(kernel.queued) && (old(Ready()) ==> Ready())
    {
      if fd < 0 || !streaming || width == 0 || height == 0 || pixelFormat == 0 {
        return OtherError;
      }
      var polled, info, failure := DequeueFrame();
      if failure.Some? {
        return CaptureError(failure.value);
      }
      var content := CopyAndRequeue(info.index, info.bytesUsed);
      if content.None? {
        return OtherError;
      }
      r := Captured(Frame(content.value, width, height, pixelFormat, info.bytesUsed,
                          info.sequence, info.index, info.flags, timestampNs));
    }

    /** The part of capture_frame_copy under the buffer guard. */
    method CopyAndRequeue(index: nat, bytesUsed: nat) returns (content: Option<seq<byte>>)
      requires Valid() && fd >= 0 && index < |buffers| && bytesUsed <= buffers[index].length
      requires index !in kernel.queued
      modifies kernel`queued, kernel`faults, kernel`copied
      ensures Valid() && kernel.faults >= old(kernel.faults)
      ensures content.None? ==> kernel.faults > old(kernel.faults)
      ensures content.Some? ==> content.value == kernel.copied && |content.value| == bytesUsed
                                && kernel.queued == old(kernel.queued) + {index}
    {
      var guard := new DequeuedBufferGuard(this, index);
      var buffer := buffers[index];
      assert bytesUsed > 0 ==> buffer.start in Addresses(buffers);
      var copied, bytes := kernel.Copy(buffer.start, buffer.length, bytesUsed);
      if !copied {
        guard.Destroy();
        return None;
      }
      var requeued := guard.RequeueOrThrow();
      guard.Destroy();
      content := if requeued.Failed? then None else Some(bytes);
    }
  }

  /** The guard that owns a dequeued buffer until it is given back, on every path out of a scope. */
  class DequeuedBufferGuard {
    const camera: CameraDevice
    const index: nat
    var active: bool

    constructor (camera: CameraDevice, index: nat)
      ensures this.camera == camera && this.index == index && active
    {
      this.camera := camera;
      this.index := index;
      active := true;
    }

    /** Gives the buffer up first, then queues it: a failure is not retried by the destructor. */
    method RequeueOrThrow() returns (r: Outcome)
      requires camera.Valid() && camera.fd >= 0
      requires active ==> index !in camera.kernel.queued
      modifies this, camera.kernel`queued, camera.kernel`faults
      ensures camera.Valid() && !active && camera.kernel.faults >= old(camera.kernel.faults)
      ensures r.Failed? ==> old(active)
                            && (index >= |camera.buffers| || camera.kernel.faults > old(camera.kernel.faults))
      ensures camera.kernel.queued == old(camera.kernel.queued) + (if old(active) && r.Done? then {index} else {})
    {
      if !active {
        return Done;
      }
      active := false;
      r := camera.RequeueBuffer(index);
    }

    /** The destructor: queues the buffer if it is still owned, and swallows a failure. */
    method Destroy()
      requires camera.Valid() && camera.fd >= 0
      requires active ==> index !in camera.kernel.queued
      modifies camera.kernel`queued, camera.kernel`faults
      ensures camera.Valid() && camera.kernel.faults >= old(camera.kernel.faults)
      ensures active && index < |camera.buffers| && camera.kernel.faults == old(camera.kernel.faults) ==>
                index in camera.kernel.queued
      ensures old(camera.kernel.queued) <= camera.kernel.queued
              <= old(camera.kernel.queued) + (if active then {index} else {})
    {
      if active {
        var r := camera.RequeueBuffer(index);
      }
    }
  }

  lemma AddressesStep(buffers: seq<MappedBuffer>, i: nat)
    requires i < |buffers| && DistinctAddresses(buffers)
    ensures Addresses(buffers[i + 1..]) == Addresses(buffers[i..]) - {buffers[i].start}
    ensures buffers[i].start != NULL ==> buffers[i].start in Addresses(buffers[i..])
  {
    var s, t := buffers[i..], buffers[i + 1..];
    assert s[0] == buffers[i] && forall k :: 0 <= k < |t| ==> t[k] == s[k + 1];
    forall a | a in Addresses(s) - {buffers[i].start} ensures a in Addresses(t) {
      var k :| 0 <= k < |s| && s[k].start != NULL && s[k].start == a;
      assert t[k - 1] == s[k];
    }
    forall a | a in Addresses(t) ensures a in Addresses(s) - {buffers[i].start} {
      var k :| 0 <= k < |t| && t[k].start != NULL && t[k].start == a;
      assert s[k + 1] == t[k] && s[k + 1] == buffers[i + k + 1];
    }
  }

  lemma AddressesUpdate(buffers: seq<MappedBuffer>, i: nat, b: MappedBuffer)
    requires i < |buffers| && buffers[i].start == NULL && DistinctAddresses(buffers)
    requires b.start != NULL && b.length > 0 && b.start !in Addresses(buffers)
    ensures Addresses(buffers[i := b]) == Addresses(buffers) + {b.start}
    ensures DistinctAddresses(buffers[i := b])
  {
    var after := buffers[i := b];
    assert after[i] == b;
    assert forall k :: 0 <= k < |buffers| && k != i ==> after[k] == buffers[k];
    forall a | a in Addresses(buffers) ensures a in Addresses(after) {
      var k :| 0 <= k < |buffers| && buffers[k].start != NULL && buffers[k].start == a;
      assert after[k] == buffers[k];
    }
    forall k | 0 <= k < |buffers| && buffers[k].start != NULL ensures buffers[k].start != b.start {
      assert buffers[k].start in Addresses(buffers);
    }
  }
}
