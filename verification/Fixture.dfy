/** The deterministic fixture file (src/protocol_fixture.cpp): writer, verifier, and why the verifier
    accepts nothing but the writer's output. */
module Fixture {
  import opened Options
  import opened Bytes
  import opened Crc32
  import opened FrameProtocol

  const WIDTH: u32 := 8
  const HEIGHT: u32 := 4
  const TIMESTAMP_BASE: u64 := 1700000000000000000
  const TIMESTAMP_STEP: u64 := 33333333
  const MAX_FRAMES: nat := 1000000   // the limit of parse_positive_u64
  const PAYLOAD_SIZE: nat := 64
  const FRAME_SIZE: nat := 108

  /** Unsigned 32-bit arithmetic, then the low byte. */
  function LowByte(n: nat): (b: byte)
  {
    n % 0x1_0000_0000 % 256
  }

  /** Byte k of a frame's payload: Y0 U Y1 V of pixel pair k / 4, four pairs to a row. */
  function PayloadByte(frameId: u64, k: nat): (b: byte)
  {
    var seed := frameId % 0x1_0000_0000;
    var y, x := k / 16, 2 * (k / 4 % 4);
    match k % 4
    case 0 => LowByte(x + y * 17 + seed * 3)
    case 1 => LowByte(96 + y * 7 + seed)
    case 2 => LowByte(x + y * 29 + seed * 5 + 1)
    case _ => LowByte(160 + x * 5 + seed * 2)
  }

  function Payload(frameId: u64): (s: seq<byte>)
    ensures |s| == PAYLOAD_SIZE
  {
    seq(PAYLOAD_SIZE, k requires 0 <= k => PayloadByte(frameId, k))
  }

  /** make_fixture_payload: the two image loops. */
  method MakePayload(frameId: u64) returns (payload: array<byte>)
    ensures fresh(payload) && payload[..] == Payload(frameId)
  {
    hide PayloadByte, LowByte;
    payload := new byte[WIDTH * HEIGHT * 2];
    var offset := 0;
    var y := 0;
    while y < HEIGHT
      invariant 0 <= y <= HEIGHT && offset == 16 * y
      invariant forall k :: 0 <= k < offset ==> payload[k] == PayloadByte(frameId, k)
    {
      var x := 0;
      while x < WIDTH
        invariant 0 <= x <= WIDTH && x % 2 == 0 && offset == 16 * y + 2 * x
        invariant forall k :: 0 <= k < offset ==> payload[k] == PayloadByte(frameId, k)
      {
        var seed := frameId % 0x1_0000_0000;
        PairBytes(frameId, y, x);
        payload[offset + 0] := LowByte(x + y * 17 + seed * 3);
        payload[offset + 1] := LowByte(96 + y * 7 + seed);
        payload[offset + 2] := LowByte(x + y * 29 + seed * 5 + 1);
        payload[offset + 3] := LowByte(160 + x * 5 + seed * 2);
        offset := offset + 4;
        x := x + 2;
      }
      y := y + 1;
    }
  }

  /** Byte j of pair h in row y, and its coordinates. */
  lemma PairIndex(y: nat, h: nat, j: nat)
    requires h < 4 && j < 4
    ensures var k := 16 * y + 4 * h + j;
            k / 16 == y && k / 4 % 4 == h && k % 4 == j
  {
    var k := 16 * y + 4 * h + j;
    QuotientUnique(k, 16, y, 4 * h + j);
    QuotientUnique(k, 4, 4 * y + h, j);
    QuotientUnique(4 * y + h, 4, y, h);
  }

  /** The four bytes of one pixel pair. */
  lemma PairBytes(frameId: u64, y: nat, x: nat)
    requires x < 8 && x % 2 == 0
    ensures var k, seed := 16 * y + 2 * x, frameId % 0x1_0000_0000;
            && PayloadByte(frameId, k) == LowByte(x + y * 17 + seed * 3)
            && PayloadByte(frameId, k + 1) == LowByte(96 + y * 7 + seed)
            && PayloadByte(frameId, k + 2) == LowByte(x + y * 29 + seed * 5 + 1)
            && PayloadByte(frameId, k + 3) == LowByte(160 + x * 5 + seed * 2)
  {
    hide LowByte;
    var h := x / 2;
    PairIndex(y, h, 0);
    PairIndex(y, h, 1);
    PairIndex(y, h, 2);
    PairIndex(y, h, 3);
  }

  lemma ModShift(a: nat, k: nat)
    ensures (a + 256 * k) % 256 == a % 256
  {
    QuotientUnique(a + 256 * k, 256, a / 256 + k, a % 256);
  }

  /** The low byte does not see the 32-bit wrap-around of a sum or of the seed. */
  lemma LowByteIs(a: nat, frameId: u64, factor: nat)
    ensures LowByte(a + factor * (frameId % 0x1_0000_0000)) == (a + factor * frameId) % 256
  {
    var q, seed := frameId / 0x1_0000_0000, frameId % 0x1_0000_0000;
    var n := a + factor * seed;
    ModShift(n % 0x1_0000_0000, 0x100_0000 * (n / 0x1_0000_0000));
    assert frameId == 0x1_0000_0000 * q + seed;
    assert factor * frameId == 256 * (0x100_0000 * (factor * q)) + factor * seed;
    ModShift(n, 0x100_0000 * (factor * q));
  }

  /** The payload, pixel pair by pixel pair: Y0 U Y1 V of the pair at column x of row y, for every frame id. */
  lemma PayloadPixels(frameId: u64, y: nat, x: nat)
    requires y < 4 && x < 8 && x % 2 == 0
    ensures var p, k := Payload(frameId), 16 * y + 2 * x;
            && p[k] == (x + 17 * y + 3 * frameId) % 256
            && p[k + 1] == (96 + 7 * y + 1 * frameId) % 256
            && p[k + 2] == (x + 29 * y + 1 + 5 * frameId) % 256
            && p[k + 3] == (160 + 5 * x + 2 * frameId) % 256
  {
    hide LowByte, PayloadByte;
    PairBytes(frameId, y, x);
    var seed := frameId % 0x1_0000_0000;
    assert x + y * 29 + seed * 5 + 1 == x + 29 * y + 1 + 5 * seed;
    LowByteIs(x + 17 * y, frameId, 3);
    LowByteIs(96 + 7 * y, frameId, 1);
    LowByteIs(x + 29 * y + 1, frameId, 5);
    LowByteIs(160 + 5 * x, frameId, 2);
  }

  /** fixture_timestamp, with its 64-bit wrap-around. */
  function Timestamp(frameId: u64): (t: u64)
  {
    (TIMESTAMP_BASE + frameId * TIMESTAMP_STEP) % 0x1_0000_0000_0000_0000
  }

  function Header(frameId: u64): (h: FrameHeader)
  {
    MakeHeader(frameId, Timestamp(frameId), WIDTH, HEIGHT, PIX_FMT_YUYV, PAYLOAD_SIZE, Checksum(Payload(frameId)))
  }

  function FrameBytes(frameId: u64): (s: seq<byte>)
    ensures |s| == FRAME_SIZE
  {
    Encode(Header(frameId)) + Payload(frameId)
  }

  /** The file for n frames. */
  function File(n: u64): (s: seq<byte>)
    ensures |s| == 108 * n
  {
    if n == 0 then [] else File(n - 1) + FrameBytes(n - 1)
  }

  /** write_fixture. */
  method WriteFixture(frames: u64) returns (out: seq<byte>, bytesWritten: nat)
    ensures out == File(frames) && bytesWritten == |out|
  {
    hide Encode, Checksum, Payload;
    out, bytesWritten := [], 0;
    for frameId := 0 to frames
      invariant out == File(frameId) && bytesWritten == |out|
    {
      var payload := MakePayload(frameId);
      var bytes := payload[..];
      var crc := ComputeCrc32(bytes);
      var header := MakeHeader(frameId, Timestamp(frameId), WIDTH, HEIGHT, PIX_FMT_YUYV, |bytes|, crc);
      var wire := SerializeHeader(header);
      out := out + wire[..];
      out := out + bytes;
      assert out == File(frameId) + FrameBytes(frameId);
      bytesWritten := bytesWritten + (wire.Length + |bytes|);
    }
  }

  datatype Verdict =
    | Verified(frames: nat, bytes: nat)
    | TruncatedHeader(at: nat)
    | InvalidHeader(at: nat)
    | FieldsMismatch(at: nat)
    | TruncatedPayload(at: nat)
    | CrcMismatch(at: nat)
    | PayloadMismatch(at: nat)
    | CountMismatch(got: nat)

  lemma {:induction false} FrameInFile(n: u64, k: nat)
    requires k < n
    ensures File(n)[108 * k..108 * k + 108] == FrameBytes(k)
  {
    hide FrameBytes;
    if k < n - 1 {
      FrameInFile(n - 1, k);
      assert File(n)[108 * k..108 * k + 108] == File(n - 1)[108 * k..108 * k + 108];
    }
  }

  /** The writer's headers pass validation: within the tool's frame limit no timestamp wraps to zero. */
  lemma HeaderIsValid(k: nat)
    requires k < MAX_FRAMES
    ensures ValidateHeader(Header(k), DEFAULT_MAX_PAYLOAD_BYTES) == Accepted
  {
    hide Checksum, Payload;
    assert 0 <= k * TIMESTAMP_STEP <= MAX_FRAMES * TIMESTAMP_STEP;
    assert Timestamp(k) == TIMESTAMP_BASE + k * TIMESTAMP_STEP;
    assert WIDTH * HEIGHT * 2 == 64;
    ValidateIff(Header(k), DEFAULT_MAX_PAYLOAD_BYTES);
  }

  /** The header of frame k, with the tool's numbers written out. */
  lemma HeaderIs(k: nat)
    requires k < 1_000_000
    ensures Header(k) == FrameHeader(0x56345450, 44, 3, k, 1700000000000000000 + 33333333 * k, 8, 4, 0x56595559, 64,
                                     Rfc1952(Payload(k)))
  {
    hide Checksum, Payload, Rfc1952;
    assert 0 <= k * TIMESTAMP_STEP <= 1_000_000 * TIMESTAMP_STEP;
    ChecksumIsRfc1952(Payload(k));
  }

  /** What the writer's file holds at the head of frame k. */
  lemma HeadOfFile(n: u64, k: nat, file: seq<byte>)
    requires file == File(n) && n <= MAX_FRAMES && 108 * k < |file|
    ensures k < n && 108 * k + 108 <= |file|
    ensures Decode(file[108 * k..108 * k + 44]) == Header(k)
    ensures file[108 * k + 44..108 * k + 108] == Payload(k)
    ensures ValidateHeader(Header(k), DEFAULT_MAX_PAYLOAD_BYTES) == Accepted
  {
    hide Encode, Decode, Checksum, Payload, ValidateHeader;
    FrameInFile(n, k);
    var frame := file[108 * k..108 * k + 108];
    assert file[108 * k..108 * k + 44] == frame[..44] == Encode(Header(k));
    assert file[108 * k + 44..108 * k + 108] == frame[44..] == Payload(k);
    DecodeEncode(Header(k));
    HeaderIsValid(k);
  }

  /** A frame that passes all checks is, byte for byte, the writer's. */
  lemma PassedFrameIsWritten(wire: seq<byte>, h: FrameHeader, payload: seq<byte>, k: u64)
    requires |wire| == WIRE_HEADER_SIZE && h == Decode(wire)
    requires ValidateHeader(h, DEFAULT_MAX_PAYLOAD_BYTES) == Accepted
    requires h.frameId == k && h.captureTimestampNs == Timestamp(k)
    requires h.width == WIDTH && h.height == HEIGHT && h.pixelFormat == PIX_FMT_YUYV
    requires |payload| == h.payloadSize && Checksum(payload) == h.payloadCrc32 && payload == Payload(k)
    ensures wire + payload == FrameBytes(k)
  {
    hide Encode, Decode, Checksum, Payload, Timestamp;
    EncodeDecode(wire);
    assert h == Header(k);
  }

  /** verify_fixture: it accepts a byte string if and only if it is exactly what write_fixture produces. */
  method VerifyFixture(file: seq<byte>, frames: u64) returns (verdict: Verdict)
    requires frames <= MAX_FRAMES
    requires |file| <= 0x7FFF_FFFF_FFFF_FFFF  // a stream position is a signed 64-bit number
    ensures verdict.Verified? <==> file == File(frames)
    ensures verdict.Verified? ==> verdict == Verified(frames, |file|)
  {
    hide Encode, Decode, Checksum, Payload, FrameBytes, ValidateHeader;
    var verified, pos := 0, 0;
    ghost var genuine := file == File(frames);
    while true
      invariant pos == 108 * verified <= |file| && verified < 0x1_0000_0000_0000_0000
      invariant file[..pos] == File(verified)
      decreases |file| - pos
    {
      if genuine && pos < |file| {
        HeadOfFile(frames, verified, file);
      }
      if pos == |file| {
        break;
      }
      if |file| - pos < WIRE_HEADER_SIZE {
        return TruncatedHeader(verified);
      }
      var wire := file[pos..pos + WIRE_HEADER_SIZE];
      var decoded := DeserializeHeader(Some(wire));
      DecodeEncode(decoded.header);
      var header := decoded.header;
      if ValidateHeader(header, DEFAULT_MAX_PAYLOAD_BYTES) != Accepted {
        return InvalidHeader(verified);
      }
      if header.frameId != verified || header.captureTimestampNs != Timestamp(verified)
         || header.width != WIDTH || header.height != HEIGHT || header.pixelFormat != PIX_FMT_YUYV {
        return FieldsMismatch(verified);
      }
      ValidateIff(header, DEFAULT_MAX_PAYLOAD_BYTES);
      assert WIDTH * HEIGHT * 2 == 64;
      assert header.payloadSize == 64;
      if |file| - pos - WIRE_HEADER_SIZE < header.payloadSize {
        return TruncatedPayload(verified);
      }
      var payload := file[pos + WIRE_HEADER_SIZE..pos + WIRE_HEADER_SIZE + header.payloadSize];
      var crc := ComputeCrc32(payload);
      if crc != header.payloadCrc32 {
        return CrcMismatch(verified);
      }
      var expected := MakePayload(verified);
      if payload != expected[..] {
        return PayloadMismatch(verified);
      }
      PassedFrameIsWritten(wire, header, payload, verified);
      assert file[..pos + 108] == file[..pos] + (wire + payload);
      verified := verified + 1;
      pos := pos + (WIRE_HEADER_SIZE + |payload|);
      assert File(verified) == File(verified - 1) + FrameBytes(verified - 1);
    }
    assert file == file[..pos];
    if verified != frames {
      return CountMismatch(verified);
    }
    verdict := Verified(verified, pos);
  }

  /** Truncated, extended or altered files are never accepted: the writer's files are the only fixed points. */
  lemma {:induction false} FilesDiffer(m: u64, n: u64)
    requires m < n
    ensures File(m) != File(n) && File(m) == File(n)[..108 * m]
  {
    hide FrameBytes;
    if m + 1 < n {
      FilesDiffer(m, n - 1);
    }
  }
}
