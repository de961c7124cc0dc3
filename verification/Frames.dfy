/** Captured frames, the usability test of the pipeline, and a frame's bytes on the wire. */
module Frames {
  import opened Bytes
  import opened Crc32
  import opened FrameProtocol

  /** The fields of struct Frame that the pipeline reads. */
  datatype Frame = Frame(
    data: seq<byte>,
    width: u32,
    height: u32,
    pixelFormat: u32,
    bytesUsed: u32,
    sequence: u32,
    bufferIndex: u32,
    flags: u32,
    captureTimestampNs: u64)

  /** V4L2_BUF_FLAG_ERROR is 0x40. */
  predicate HasBufferError(f: Frame)
  {
    f.flags / 0x40 % 2 == 1
  }

  function ExpectedSize(f: Frame): (n: nat)
  {
    if f.pixelFormat == PIX_FMT_YUYV then f.width * f.height * 2 else 0
  }

  predicate IsIncompleteYuyv(f: Frame)
  {
    f.pixelFormat == PIX_FMT_YUYV && |f.data| < ExpectedSize(f)
  }

  datatype Usability = Usable | BufferError | EmptyData | UnknownFormat | IncompleteYuyv

  /** is_frame_usable; the result names the reason string. */
  function CheckUsable(f: Frame): (r: Usability)
  {
    if HasBufferError(f) then BufferError
    else if f.data == [] then EmptyData
    else if f.width == 0 || f.height == 0 || f.pixelFormat == 0 then UnknownFormat
    else if IsIncompleteYuyv(f) then IncompleteYuyv
    else Usable
  }

  predicate IsUsable(f: Frame)
  {
    CheckUsable(f).Usable?
  }

  /** send_frame_over_tcp throws before the first byte unless this holds. */
  predicate Sendable(f: Frame)
  {
    |f.data| <= U32_MAX && f.captureTimestampNs != 0
  }

  function HeaderOf(f: Frame): (h: FrameHeader)
    requires Sendable(f)
  {
    MakeHeader(f.sequence, f.captureTimestampNs, f.width, f.height, f.pixelFormat, |f.data|, Checksum(f.data))
  }

  /** Everything send_frame_over_tcp puts on the socket for one frame. */
  function Wire(f: Frame): (w: seq<byte>)
    requires Sendable(f)
    ensures |w| == WIRE_HEADER_SIZE + |f.data|
  {
    Encode(HeaderOf(f)) + f.data
  }

  /** Which frames are usable: the error bit 0x40 is clear, there are data, size and format are known, and a YUYV
      image is not short. The reason against an unusable one is the first of these that fails. */
  lemma UsableIff(f: Frame)
    ensures IsUsable(f)
            <==> (&& f.flags % 128 < 64 && |f.data| > 0 && f.width > 0 && f.height > 0 && f.pixelFormat > 0
                  && (f.pixelFormat == 0x56595559 ==> |f.data| >= 2 * (f.width * f.height)))
    ensures CheckUsable(f) == BufferError <==> f.flags % 128 >= 64
    ensures CheckUsable(f) == EmptyData <==> f.flags % 128 < 64 && |f.data| == 0
    ensures CheckUsable(f) == UnknownFormat
            <==> f.flags % 128 < 64 && |f.data| > 0 && (f.width == 0 || f.height == 0 || f.pixelFormat == 0)
  {
    FlagBit(f.flags);
    assert HasBufferError(f) <==> f.flags % 128 >= 64;
  }

  lemma FlagBit(flags: u32)
    ensures flags / 64 % 2 == 1 <==> flags % 128 >= 64
  {
    var q := flags / 128;
    var r := flags % 128;
    assert flags == q * 128 + r;
    QuotientUnique(flags, 64, if r >= 64 then 2 * q + 1 else 2 * q, if r >= 64 then r - 64 else r);
  }

  /** What is on the wire for a frame, byte range by byte range, in the frame's own terms: magic, header size and
      version first, then the sequence number as frame id, the timestamp, size, format, payload size and checksum. */
  lemma HeaderOnWire(f: Frame)
    requires Sendable(f)
    ensures var w := Wire(f);
            && w[0..8] == [0x50, 0x54, 0x34, 0x56, 44, 0, 3, 0]
            && FromLe(w[8..16]) == f.sequence && FromLe(w[16..24]) == f.captureTimestampNs
            && FromLe(w[24..28]) == f.width && FromLe(w[28..32]) == f.height && FromLe(w[32..36]) == f.pixelFormat
            && FromLe(w[36..40]) == |f.data| && FromLe(w[40..44]) == Rfc1952(f.data) && w[44..] == f.data
  {
    hide Encode, Checksum, Rfc1952, FromLe, ToLe;
    var h, e := HeaderOf(f), Encode(HeaderOf(f));
    var w := Wire(f);
    FieldLayout(h);
    ChecksumIsRfc1952(f.data);
    assert w[0..4] == e[0..4] && w[4..6] == e[4..6] && w[6..8] == e[6..8] && w[8..16] == e[8..16];
    assert w[16..24] == e[16..24] && w[24..28] == e[24..28] && w[28..32] == e[28..32] && w[32..36] == e[32..36];
    assert w[36..40] == e[36..40] && w[40..44] == e[40..44];
    assert w[0..8] == w[0..4] + w[4..6] + w[6..8];
    Preamble();
    Pow256Values();
    FromToLe(h.frameId, U64_BYTES);
    FromToLe(h.captureTimestampNs, U64_BYTES);
    FromToLe(h.width, U32_BYTES);
    FromToLe(h.height, U32_BYTES);
    FromToLe(h.pixelFormat, U32_BYTES);
    FromToLe(h.payloadSize, U32_BYTES);
    FromToLe(h.payloadCrc32, U32_BYTES);
  }

  lemma Preamble()
    ensures ToLe(MAGIC, U32_BYTES) + ToLe(WIRE_HEADER_SIZE, U16_BYTES) + ToLe(VERSION, U16_BYTES)
         == [0x50, 0x54, 0x34, 0x56, 44, 0, 3, 0]
  {
    assert ToLe(MAGIC, 4) == [0x50] + ToLe(0x563454, 3);
    assert ToLe(0x563454, 3) == [0x54] + ToLe(0x5634, 2);
    assert ToLe(0x5634, 2) == [0x34] + ToLe(0x56, 1);
    assert ToLe(0x56, 1) == [0x56] + ToLe(0, 0);
    assert ToLe(44, 2) == [44] + ToLe(0, 1) && ToLe(0, 1) == [0] + ToLe(0, 0);
    assert ToLe(3, 2) == [3] + ToLe(0, 1);
  }

  // ------------------------------------------------- usable is not the same as acceptable

  /** The promise "what the pipeline sends, the receiver accepts" is false: a YUYV buffer that is
      longer than width * height * 2 is usable and is sent, but the receiver wants the exact size. */
  lemma UsableButRejected()
    ensures exists f: Frame :: IsUsable(f) && Sendable(f)
                               && ValidateHeader(HeaderOf(f), DEFAULT_MAX_PAYLOAD_BYTES) == YuyvSizeMismatch
  {
    var f := Frame([16, 128, 16, 128, 0], 2, 1, PIX_FMT_YUYV, 5, 0, 0, 0, 1);
    assert IsUsable(f) && Sendable(f);
    assert ValidateHeader(HeaderOf(f), DEFAULT_MAX_PAYLOAD_BYTES) == YuyvSizeMismatch;
  }

  /** What a usable frame still needs for the receiver to accept its header. */
  predicate FitsReceiver(f: Frame, maxPayloadBytes: u32)
  {
    && f.width <= MAX_DIMENSION && f.height <= MAX_DIMENSION
    && |f.data| <= maxPayloadBytes
    && (f.pixelFormat == PIX_FMT_YUYV ==> f.width % 2 == 0 && |f.data| <= f.width * f.height * 2)
  }

  /** The exact condition: for usable, sendable frames the receiver accepts if and only if the
      frame is within its limits, has an even width and is not longer than one YUYV image. */
  lemma AcceptedIffFits(f: Frame, maxPayloadBytes: u32)
    requires IsUsable(f) && Sendable(f)
    ensures ValidateHeader(HeaderOf(f), maxPayloadBytes) == Accepted <==> FitsReceiver(f, maxPayloadBytes)
  {
    ValidateIff(HeaderOf(f), maxPayloadBytes);
  }
}
