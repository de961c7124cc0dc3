/** The v3 wire header: its codec and its validation (include/frame_protocol.hpp). */
module FrameProtocol {
  import opened Options
  import opened Bytes

  const MAGIC: u32 := 0x56345450
  const VERSION: u16 := 3
  const WIRE_HEADER_SIZE: nat := 44
  const U16_BYTES: nat := 2
  const U32_BYTES: nat := 4
  const U64_BYTES: nat := 8
  const DEFAULT_MAX_PAYLOAD_BYTES: u32 := 16 * 1024 * 1024
  const MAX_DIMENSION: u32 := 16384
  /** V4L2_PIX_FMT_YUYV: the characters Y, U, Y, V with the first in the low byte. */
  const PIX_FMT_YUYV: u32 := 0x56595559

  datatype FrameHeader = FrameHeader(
    magic: u32,
    headerSize: u16,
    version: u16,
    frameId: u64,
    captureTimestampNs: u64,
    width: u32,
    height: u32,
    pixelFormat: u32,
    payloadSize: u32,
    payloadCrc32: u32)

  // ---------------------------------------------------------------- codec

  /** The 44 bytes of a header: its ten fields in order, each little-endian. */
  function Encode(h: FrameHeader): (wire: seq<byte>)
    ensures |wire| == WIRE_HEADER_SIZE
  {
    ToLe(h.magic, U32_BYTES) + ToLe(h.headerSize, U16_BYTES) + ToLe(h.version, U16_BYTES)
    + ToLe(h.frameId, U64_BYTES) + ToLe(h.captureTimestampNs, U64_BYTES)
    + ToLe(h.width, U32_BYTES) + ToLe(h.height, U32_BYTES) + ToLe(h.pixelFormat, U32_BYTES)
    + ToLe(h.payloadSize, U32_BYTES) + ToLe(h.payloadCrc32, U32_BYTES)
  }

  /** The number held by the n bytes at offset. */
  function Field(wire: seq<byte>, offset: nat, n: nat): (v: nat)
    requires offset + n <= |wire|
    ensures v < Pow256(n)
  {
    FromLeBound(wire[offset..offset + n]);
    FromLe(wire[offset..offset + n])
  }

  function Decode(wire: seq<byte>): (h: FrameHeader)
    requires |wire| == WIRE_HEADER_SIZE
  {
    Pow256Values();
    FrameHeader(
      Field(wire, 0, U32_BYTES), Field(wire, 4, U16_BYTES), Field(wire, 6, U16_BYTES), Field(wire, 8, U64_BYTES),
      Field(wire, 16, U64_BYTES), Field(wire, 24, U32_BYTES), Field(wire, 28, U32_BYTES),
      Field(wire, 32, U32_BYTES), Field(wire, 36, U32_BYTES), Field(wire, 40, U32_BYTES))
  }

  lemma TenParts(a: seq<byte>, b: seq<byte>, c: seq<byte>, d: seq<byte>, e: seq<byte>,
                 f: seq<byte>, g: seq<byte>, h: seq<byte>, i: seq<byte>, j: seq<byte>)
    requires |a| == 4 && |b| == 2 && |c| == 2 && |d| == 8 && |e| == 8
    requires |f| == 4 && |g| == 4 && |h| == 4 && |i| == 4 && |j| == 4
    ensures var w := a + b + c + d + e + f + g + h + i + j;
            && |w| == 44
            && w[0..4] == a && w[4..6] == b && w[6..8] == c && w[8..16] == d && w[16..24] == e
            && w[24..28] == f && w[28..32] == g && w[32..36] == h && w[36..40] == i && w[40..44] == j
  {
  }

  /** The ten fields partition the 44 bytes. */
  lemma FieldLayout(h: FrameHeader)
    ensures var w := Encode(h);
            && w[0..4] == ToLe(h.magic, U32_BYTES) && w[4..6] == ToLe(h.headerSize, U16_BYTES)
            && w[6..8] == ToLe(h.version, U16_BYTES) && w[8..16] == ToLe(h.frameId, U64_BYTES)
            && w[16..24] == ToLe(h.captureTimestampNs, U64_BYTES) && w[24..28] == ToLe(h.width, U32_BYTES)
            && w[28..32] == ToLe(h.height, U32_BYTES) && w[32..36] == ToLe(h.pixelFormat, U32_BYTES)
            && w[36..40] == ToLe(h.payloadSize, U32_BYTES) && w[40..44] == ToLe(h.payloadCrc32, U32_BYTES)
  {
    TenParts(ToLe(h.magic, U32_BYTES), ToLe(h.headerSize, U16_BYTES), ToLe(h.version, U16_BYTES),
             ToLe(h.frameId, U64_BYTES), ToLe(h.captureTimestampNs, U64_BYTES), ToLe(h.width, U32_BYTES),
             ToLe(h.height, U32_BYTES), ToLe(h.pixelFormat, U32_BYTES),
             ToLe(h.payloadSize, U32_BYTES), ToLe(h.payloadCrc32, U32_BYTES));
  }

  /** Reading back what was written gives the same header. */
  lemma DecodeEncode(h: FrameHeader)
    ensures Decode(Encode(h)) == h
  {
    FieldLayout(h);
    Pow256Values();
    FromToLe(h.magic, U32_BYTES);
    FromToLe(h.headerSize, U16_BYTES);
    FromToLe(h.version, U16_BYTES);
    FromToLe(h.frameId, U64_BYTES);
    FromToLe(h.captureTimestampNs, U64_BYTES);
    FromToLe(h.width, U32_BYTES);
    FromToLe(h.height, U32_BYTES);
    FromToLe(h.pixelFormat, U32_BYTES);
    FromToLe(h.payloadSize, U32_BYTES);
    FromToLe(h.payloadCrc32, U32_BYTES);
  }

  /** Every 44-byte string is the encoding of the header it decodes to. */
  lemma EncodeDecode(w: seq<byte>)
    requires |w| == WIRE_HEADER_SIZE
    ensures Encode(Decode(w)) == w
  {
    ToFromLe(w[0..4]);
    ToFromLe(w[4..6]);
    ToFromLe(w[6..8]);
    ToFromLe(w[8..16]);
    ToFromLe(w[16..24]);
    ToFromLe(w[24..28]);
    ToFromLe(w[28..32]);
    ToFromLe(w[32..36]);
    ToFromLe(w[36..40]);
    ToFromLe(w[40..44]);
    assert w == w[0..4] + w[4..6] + w[6..8] + w[8..16] + w[16..24]
                + w[24..28] + w[28..32] + w[32..36] + w[36..40] + w[40..44];
  }

  /** write_u16_le, write_u32_le and write_u64_le, which differ in their byte count only. */
  method WriteLe(out: array<byte>, offset: nat, value: nat, n: nat)
    requires offset + n <= out.Length
    modifies out
    ensures out[..] == old(out[..offset]) + ToLe(value, n) + old(out[offset + n..])
  {
    for i := 0 to n
      invariant forall k :: 0 <= k < i ==> out[offset + k] == ToLe(value, n)[k]
      invariant forall k :: 0 <= k < out.Length && !(offset <= k < offset + i) ==> out[k] == old(out[k])
    {
      ToLeAt(value, n, i);
      out[offset + i] := value / Pow256(i) % 256;
    }
    assert out[offset..offset + n] == ToLe(value, n);
    assert out[..] == out[..offset] + out[offset..offset + n] + out[offset + n..];
  }

  /** read_u16_le, read_u32_le and read_u64_le. */
  method ReadLe(bytes: seq<byte>, offset: nat, n: nat) returns (value: nat)
    requires offset + n <= |bytes|
    ensures value == Field(bytes, offset, n)
  {
    value := 0;
    for i := 0 to n
      invariant value == FromLe(bytes[offset..offset + i])
    {
      FromLeSnoc(bytes[offset..offset + i], bytes[offset + i]);
      assert bytes[offset..offset + i] + [bytes[offset + i]] == bytes[offset..offset + i + 1];
      value := value + bytes[offset + i] * Pow256(i);
    }
  }

  /** serialize_header: ten writes into a zeroed 44-byte array. */
  method SerializeHeader(h: FrameHeader) returns (wire: array<byte>)
    ensures fresh(wire) && wire[..] == Encode(h)
  {
    wire := new byte[44](_ => 0);
    ghost var done: seq<byte> := [];
    WriteLe(wire, 0, h.magic, U32_BYTES);
    done := ToLe(h.magic, U32_BYTES);
    assert wire[..4] == done;
    WriteLe(wire, 4, h.headerSize, U16_BYTES);
    done := done + ToLe(h.headerSize, U16_BYTES);
    assert wire[..6] == done;
    WriteLe(wire, 6, h.version, U16_BYTES);
    done := done + ToLe(h.version, U16_BYTES);
    assert wire[..8] == done;
    WriteLe(wire, 8, h.frameId, U64_BYTES);
    done := done + ToLe(h.frameId, U64_BYTES);
    assert wire[..16] == done;
    WriteLe(wire, 16, h.captureTimestampNs, U64_BYTES);
    done := done + ToLe(h.captureTimestampNs, U64_BYTES);
    assert wire[..24] == done;
    WriteLe(wire, 24, h.width, U32_BYTES);
    done := done + ToLe(h.width, U32_BYTES);
    assert wire[..28] == done;
    WriteLe(wire, 28, h.height, U32_BYTES);
    done := done + ToLe(h.height, U32_BYTES);
    assert wire[..32] == done;
    WriteLe(wire, 32, h.pixelFormat, U32_BYTES);
    done := done + ToLe(h.pixelFormat, U32_BYTES);
    assert wire[..36] == done;
    WriteLe(wire, 36, h.payloadSize, U32_BYTES);
    done := done + ToLe(h.payloadSize, U32_BYTES);
    assert wire[..40] == done;
    WriteLe(wire, 40, h.payloadCrc32, U32_BYTES);
    done := done + ToLe(h.payloadCrc32, U32_BYTES);
    assert wire[..] == done;
  }

  datatype DecodeResult = Decoded(header: FrameHeader) | NullWireHeader | SizeMismatch(got: nat)

  /** deserialize_header; None is the null pointer. */
  method DeserializeHeader(data: Option<seq<byte>>) returns (r: DecodeResult)
    ensures data.None? <==> r.NullWireHeader?
    ensures data.Some? && |data.value| != WIRE_HEADER_SIZE ==> r == SizeMismatch(|data.value|)
    ensures data.Some? && |data.value| == WIRE_HEADER_SIZE ==> r.Decoded? && Encode(r.header) == data.value
  {
    if data.None? {
      return NullWireHeader;
    }
    var bytes := data.value;
    if |bytes| != WIRE_HEADER_SIZE {
      return SizeMismatch(|bytes|);
    }
    Pow256Values();
    var magic := ReadLe(bytes, 0, U32_BYTES);
    var headerSize := ReadLe(bytes, 4, U16_BYTES);
    var version := ReadLe(bytes, 6, U16_BYTES);
    var frameId := ReadLe(bytes, 8, U64_BYTES);
    var timestamp := ReadLe(bytes, 16, U64_BYTES);
    var width := ReadLe(bytes, 24, U32_BYTES);
    var height := ReadLe(bytes, 28, U32_BYTES);
    var pixelFormat := ReadLe(bytes, 32, U32_BYTES);
    var payloadSize := ReadLe(bytes, 36, U32_BYTES);
    var crc := ReadLe(bytes, 40, U32_BYTES);
    r := Decoded(FrameHeader(magic, headerSize, version, frameId, timestamp,
                             width, height, pixelFormat, payloadSize, crc));
    EncodeDecode(bytes);
    assert r.header == Decode(bytes);
  }

  // ---------------------------------------------------------------- validation

  /** make_header. */
  function MakeHeader(frameId: u64, timestampNs: u64, width: u32, height: u32, pixelFormat: u32,
                      payloadSize: u32, crc: u32): (h: FrameHeader)
  {
    FrameHeader(MAGIC, WIRE_HEADER_SIZE, VERSION, frameId, timestampNs, width, height, pixelFormat, payloadSize, crc)
  }

  datatype HeaderVerdict =
    | Accepted
    | ReceiverLimitZero
    | InvalidMagic
    | UnsupportedHeaderSize
    | UnsupportedVersion
    | ZeroTimestamp
    | ZeroDimension
    | DimensionTooLarge
    | MissingPixelFormat
    | ZeroPayload
    | PayloadTooLarge
    | OddYuyvWidth
    | YuyvOverflow
    | YuyvSizeMismatch

  /** validate_header, check by check; the verdict names the reason string. */
  function ValidateHeader(h: FrameHeader, maxPayloadBytes: u32): (v: HeaderVerdict)
  {
    if maxPayloadBytes == 0 then ReceiverLimitZero
    else if h.magic != MAGIC then InvalidMagic
    else if h.headerSize != WIRE_HEADER_SIZE then UnsupportedHeaderSize
    else if h.version != VERSION then UnsupportedVersion
    else if h.captureTimestampNs == 0 then ZeroTimestamp
    else if h.width == 0 || h.height == 0 then ZeroDimension
    else if h.width > MAX_DIMENSION || h.height > MAX_DIMENSION then DimensionTooLarge
    else if h.pixelFormat == 0 then MissingPixelFormat
    else if h.payloadSize == 0 then ZeroPayload
    else if h.payloadSize > maxPayloadBytes then PayloadTooLarge
    else if h.pixelFormat == PIX_FMT_YUYV then
      var expected := h.width * h.height * 2;
      if h.width % 2 != 0 then OddYuyvWidth
      else if expected > U32_MAX then YuyvOverflow
      else if h.payloadSize != expected then YuyvSizeMismatch
      else Accepted
    else Accepted
  }

  /** What the receiver accepts, in one formula: the protocol's numbers written out. */
  predicate WellFormed(h: FrameHeader, maxPayloadBytes: u32)
  {
    && h.magic == 0x56345450 && h.headerSize == 44 && h.version == 3
    && h.captureTimestampNs > 0
    && 0 < h.width <= 16384 && 0 < h.height <= 16384
    && h.pixelFormat != 0
    && 0 < h.payloadSize <= maxPayloadBytes
    && (h.pixelFormat == 0x56595559 ==> h.width % 2 == 0 && h.payloadSize == h.width * h.height * 2)
  }

  lemma AreaBound(w: nat, h: nat, m: nat)
    requires w <= m && h <= m
    ensures w * h <= m * m
  {
    assert w * h <= m * h <= m * m;
  }

  /** validate_header accepts exactly the well-formed headers, and its overflow branch is dead:
      the dimension limit already keeps width * height * 2 below 2^30. */
  lemma ValidateIff(h: FrameHeader, maxPayloadBytes: u32)
    ensures ValidateHeader(h, maxPayloadBytes) == Accepted <==> WellFormed(h, maxPayloadBytes)
    ensures ValidateHeader(h, maxPayloadBytes) != YuyvOverflow
  {
    if h.width <= MAX_DIMENSION && h.height <= MAX_DIMENSION {
      AreaBound(h.width, h.height, MAX_DIMENSION);
    }
  }

  /** The reason given is the first check that fails, in the order of the checks. */
  lemma RejectionReasons(h: FrameHeader, maxPayloadBytes: u32)
    ensures var v := ValidateHeader(h, maxPayloadBytes);
            var framed := maxPayloadBytes > 0 && h.magic == 0x56345450 && h.headerSize == 44 && h.version == 3;
            var sized := framed && h.captureTimestampNs > 0 && 0 < h.width <= 16384 && 0 < h.height <= 16384;
            var loaded := sized && h.pixelFormat > 0 && 0 < h.payloadSize <= maxPayloadBytes;
            && (v == ReceiverLimitZero <==> maxPayloadBytes == 0)
            && (v == InvalidMagic <==> maxPayloadBytes > 0 && h.magic != 0x56345450)
            && (v == UnsupportedHeaderSize <==> maxPayloadBytes > 0 && h.magic == 0x56345450 && h.headerSize != 44)
            && (v == UnsupportedVersion
                <==> maxPayloadBytes > 0 && h.magic == 0x56345450 && h.headerSize == 44 && h.version != 3)
            && (v == ZeroTimestamp <==> framed && h.captureTimestampNs == 0)
            && (v == ZeroDimension <==> framed && h.captureTimestampNs > 0 && (h.width == 0 || h.height == 0))
            && (v == DimensionTooLarge
                <==> && framed && h.captureTimestampNs > 0 && h.width > 0 && h.height > 0
                     && (h.width > 16384 || h.height > 16384))
            && (v == MissingPixelFormat <==> sized && h.pixelFormat == 0)
            && (v == ZeroPayload <==> sized && h.pixelFormat > 0 && h.payloadSize == 0)
            && (v == PayloadTooLarge <==> sized && h.pixelFormat > 0 && h.payloadSize > maxPayloadBytes)
            && (v == OddYuyvWidth <==> loaded && h.pixelFormat == 0x56595559 && h.width % 2 == 1)
            && (v == YuyvSizeMismatch
                <==> && loaded && h.pixelFormat == 0x56595559 && h.width % 2 == 0
                     && h.payloadSize != h.width * h.height * 2)
  {
    ValidateIff(h, maxPayloadBytes);
  }
}
