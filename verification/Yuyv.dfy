/** YUYV conversion: the ROS adapter's RGB and mono converters (yuyv_conversion.hpp) and the pipeline's
    frame_yuyv_to_rgb (src/main.cpp), against one formula per pixel. */
module Yuyv {
  import opened Options
  import opened Bytes
  import opened FrameProtocol

  datatype Pixel = Pixel(r: byte, g: byte, b: byte)

  /** clamp_u8, frame_clamp_to_u8. */
  function Clamp(v: int): (r: byte)
  {
    if v < 0 then 0 else if v > 255 then 255 else v
  }

  /** The fixed-point colour matrix; an arithmetic shift by 8 is a division that rounds down. */
  function Shade(c: int, d: int, e: int): (p: Pixel)
  {
    Pixel(Clamp((298 * c + 409 * e + 128) / 256),
          Clamp((298 * c - 100 * d - 208 * e + 128) / 256),
          Clamp((298 * c + 516 * d + 128) / 256))
  }

  /** The adapter treats luma below 16 as black. */
  function AdapterPixel(y: byte, u: byte, v: byte): (p: Pixel)
  {
    Shade(if y > 16 then y - 16 else 0, u - 128, v - 128)
  }

  /** The pipeline lets luma below 16 go negative. */
  function PipelinePixel(y: byte, u: byte, v: byte): (p: Pixel)
  {
    Shade(y - 16, u - 128, v - 128)
  }

  /** Byte k of an image; the converters never read where this is not an actual byte. */
  function At(yuyv: seq<byte>, k: nat): (b: byte)
  {
    if k < |yuyv| then yuyv[k] else 0
  }

  /** The luma of pixel p, and the chroma that it shares with its neighbour. */
  function Y(yuyv: seq<byte>, p: nat): (b: byte) { At(yuyv, 2 * p) }
  function U(yuyv: seq<byte>, p: nat): (b: byte) { At(yuyv, 4 * (p / 2) + 1) }
  function V(yuyv: seq<byte>, p: nat): (b: byte) { At(yuyv, 4 * (p / 2) + 3) }

  function AdapterAt(yuyv: seq<byte>, p: nat): (r: Pixel)
  {
    AdapterPixel(Y(yuyv, p), U(yuyv, p), V(yuyv, p))
  }

  function PipelineAt(yuyv: seq<byte>, p: nat): (r: Pixel)
  {
    PipelinePixel(Y(yuyv, p), U(yuyv, p), V(yuyv, p))
  }

  /** The first n pixels of an image, under one of the two conversions. */
  function AdapterPixels(yuyv: seq<byte>, n: nat): (s: seq<Pixel>)
    ensures |s| == n
  {
    seq(n, p requires 0 <= p => AdapterAt(yuyv, p))
  }

  function PipelinePixels(yuyv: seq<byte>, n: nat): (s: seq<Pixel>)
    ensures |s| == n
  {
    seq(n, p requires 0 <= p => PipelineAt(yuyv, p))
  }

  /** The three bytes of pixel p in an RGB image. */
  function PixelOf(rgb: seq<byte>, p: nat): (r: Pixel)
    requires 3 * p + 2 < |rgb|
  {
    Pixel(rgb[3 * p], rgb[3 * p + 1], rgb[3 * p + 2])
  }

  /** An RGB image, pixel after pixel. */
  function Render(pixels: seq<Pixel>): (rgb: seq<byte>)
    ensures |rgb| == 3 * |pixels|
  {
    if pixels == [] then []
    else
      var p := pixels[|pixels| - 1];
      Render(pixels[..|pixels| - 1]) + [p.r, p.g, p.b]
  }

  lemma {:induction false} RenderAt(pixels: seq<Pixel>, p: nat)
    requires p < |pixels|
    ensures PixelOf(Render(pixels), p) == pixels[p]
  {
    if p < |pixels| - 1 {
      RenderAt(pixels[..|pixels| - 1], p);
    }
  }

  lemma RenderSnoc(pixels: seq<Pixel>, p: Pixel)
    ensures Render(pixels + [p]) == Render(pixels) + [p.r, p.g, p.b]
  {
    assert (pixels + [p])[..|pixels|] == pixels;
  }

  // ---------------------------------------------------------------- what the bytes of an image are

  /** b is x / 256 rounded down, cut to the range of a byte. */
  predicate Rounded(b: byte, x: int)
  {
    && (b > 0 ==> 256 * b <= x)
    && (b < 255 ==> x < 256 * (b + 1))
  }

  lemma RoundedUnique(a: byte, b: byte, x: int)
    requires Rounded(a, x) && Rounded(b, x)
    ensures a == b
  {
  }

  lemma ClampRounds(x: int)
    ensures Rounded(Clamp(x / 256), x)
  {
  }

  /** Red, green and blue of a pixel with adjusted luma c and chroma u, v. */
  predicate IsColour(r: byte, g: byte, b: byte, c: int, u: int, v: int)
  {
    && Rounded(r, 298 * c + 409 * (v - 128) + 128)
    && Rounded(g, 298 * c - 100 * (u - 128) - 208 * (v - 128) + 128)
    && Rounded(b, 298 * c + 516 * (u - 128) + 128)
  }

  /** Luma above black; with `floor`, nothing is darker than black. */
  function Luma(y: int, floor: bool): (c: int)
  {
    if floor && y <= 16 then 0 else y - 16
  }

  /** Pixel p of an RGB image, from the bytes of a YUYV image: red, green and blue in this order. */
  predicate IsPixel(rgb: seq<byte>, yuyv: seq<byte>, p: nat, floor: bool)
    requires 3 * p + 2 < |rgb| && 4 * (p / 2) + 3 < |yuyv|
  {
    IsColour(rgb[3 * p], rgb[3 * p + 1], rgb[3 * p + 2],
             Luma(yuyv[2 * p], floor), yuyv[4 * (p / 2) + 1], yuyv[4 * (p / 2) + 3])
  }

  /** The RGB image of the first n pixels. */
  ghost predicate IsRgb(rgb: seq<byte>, yuyv: seq<byte>, n: nat, floor: bool)
  {
    && |rgb| == 3 * n && |yuyv| >= 2 * n && n % 2 == 0
    && forall p :: 0 <= p < n ==> 3 * p + 2 < |rgb| && 4 * (p / 2) + 3 < |yuyv| && IsPixel(rgb, yuyv, p, floor)
  }

  lemma ColourUnique(r: byte, g: byte, b: byte, r': byte, g': byte, b': byte, c: int, u: int, v: int)
    requires IsColour(r, g, b, c, u, v) && IsColour(r', g', b', c, u, v)
    ensures r == r' && g == g' && b == b'
  {
    hide Rounded;
    RoundedUnique(r, r', 298 * c + 409 * (v - 128) + 128);
    RoundedUnique(g, g', 298 * c - 100 * (u - 128) - 208 * (v - 128) + 128);
    RoundedUnique(b, b', 298 * c + 516 * (u - 128) + 128);
  }

  /** The formula describes one image only. */
  lemma RgbUnique(a: seq<byte>, b: seq<byte>, yuyv: seq<byte>, n: nat, floor: bool)
    requires IsRgb(a, yuyv, n, floor) && IsRgb(b, yuyv, n, floor)
    ensures a == b
  {
    hide IsColour, Luma;
    forall k | 0 <= k < |a| ensures a[k] == b[k] {
      var p := k / 3;
      assert k == 3 * p || k == 3 * p + 1 || k == 3 * p + 2;
      assert IsPixel(a, yuyv, p, floor) && IsPixel(b, yuyv, p, floor);
      ColourUnique(a[3 * p], a[3 * p + 1], a[3 * p + 2], b[3 * p], b[3 * p + 1], b[3 * p + 2],
                   Luma(yuyv[2 * p], floor), yuyv[4 * (p / 2) + 1], yuyv[4 * (p / 2) + 3]);
    }
  }

  /** Neutral chroma gives grey. */
  lemma NeutralIsGrey(rgb: seq<byte>, yuyv: seq<byte>, n: nat, floor: bool, p: nat)
    requires IsRgb(rgb, yuyv, n, floor) && p < n
    requires yuyv[4 * (p / 2) + 1] == 128 && yuyv[4 * (p / 2) + 3] == 128
    ensures rgb[3 * p] == rgb[3 * p + 1] == rgb[3 * p + 2]
  {
    hide Luma;
    var c := Luma(yuyv[2 * p], floor);
    assert IsPixel(rgb, yuyv, p, floor);
    RoundedUnique(rgb[3 * p], rgb[3 * p + 1], 298 * c + 128);
    RoundedUnique(rgb[3 * p], rgb[3 * p + 2], 298 * c + 128);
  }

  lemma ShadeIsColour(c: int, u: int, v: int)
    ensures var p := Shade(c, u - 128, v - 128); IsColour(p.r, p.g, p.b, c, u, v)
  {
    hide Clamp, Rounded;
    ClampRounds(298 * c + 409 * (v - 128) + 128);
    ClampRounds(298 * c - 100 * (u - 128) - 208 * (v - 128) + 128);
    ClampRounds(298 * c + 516 * (u - 128) + 128);
  }

  lemma PixelBytes(yuyv: seq<byte>, p: nat, n: nat)
    requires |yuyv| >= 2 * n && n % 2 == 0 && p < n
    ensures 4 * (p / 2) + 3 < |yuyv|
    ensures Y(yuyv, p) == yuyv[2 * p] && U(yuyv, p) == yuyv[4 * (p / 2) + 1] && V(yuyv, p) == yuyv[4 * (p / 2) + 3]
  {
    assert 2 * (p / 2) + 1 < n;
  }

  lemma AdapterIsColour(y: byte, u: byte, v: byte)
    ensures var p := AdapterPixel(y, u, v); IsColour(p.r, p.g, p.b, Luma(y, true), u, v)
  {
    hide Shade, IsColour;
    ShadeIsColour(Luma(y, true), u, v);
  }

  lemma PipelineIsColour(y: byte, u: byte, v: byte)
    ensures var p := PipelinePixel(y, u, v); IsColour(p.r, p.g, p.b, Luma(y, false), u, v)
  {
    hide Shade, IsColour;
    ShadeIsColour(Luma(y, false), u, v);
  }

  lemma AdapterRgb(yuyv: seq<byte>, n: nat)
    requires |yuyv| >= 2 * n && n % 2 == 0
    ensures IsRgb(Render(AdapterPixels(yuyv, n)), yuyv, n, true)
  {
    hide Render, AdapterPixel, IsColour, Luma, Y, U, V;
    var rgb := Render(AdapterPixels(yuyv, n));
    forall p | 0 <= p < n
      ensures 4 * (p / 2) + 3 < |yuyv| && IsPixel(rgb, yuyv, p, true)
    {
      RenderAt(AdapterPixels(yuyv, n), p);
      PixelBytes(yuyv, p, n);
      AdapterIsColour(yuyv[2 * p], yuyv[4 * (p / 2) + 1], yuyv[4 * (p / 2) + 3]);
    }
  }

  lemma PipelineRgb(yuyv: seq<byte>, n: nat)
    requires |yuyv| >= 2 * n && n % 2 == 0
    ensures IsRgb(Render(PipelinePixels(yuyv, n)), yuyv, n, false)
  {
    hide Render, PipelinePixel, IsColour, Luma, Y, U, V;
    var rgb := Render(PipelinePixels(yuyv, n));
    forall p | 0 <= p < n
      ensures 4 * (p / 2) + 3 < |yuyv| && IsPixel(rgb, yuyv, p, false)
    {
      RenderAt(PipelinePixels(yuyv, n), p);
      PixelBytes(yuyv, p, n);
      PipelineIsColour(yuyv[2 * p], yuyv[4 * (p / 2) + 1], yuyv[4 * (p / 2) + 3]);
    }
  }

  datatype Converted = Image(bytes: seq<byte>) | WrongSize | OddWidth

  /** A size check that both converters make first. */
  function Rejection(size: nat, width: u32, height: u32): (r: Option<Converted>)
  {
    if size != width * height * 2 then Some(WrongSize)
    else if width % 2 != 0 then Some(OddWidth)
    else None
  }

  lemma EvenImage(width: nat, height: nat)
    requires width % 2 == 0
    ensures (width * height * 2) % 4 == 0
  {
    var half := width / 2;
    assert width * height * 2 == 4 * (half * height);
  }

  /** convert_yuyv_to_rgb8. */
  method ConvertYuyvToRgb8(payload: seq<byte>, width: u32, height: u32) returns (r: Converted)
    ensures Rejection(|payload|, width, height).Some? ==> r == Rejection(|payload|, width, height).value
    ensures Rejection(|payload|, width, height).None? ==> r == Image(Render(AdapterPixels(payload, width * height)))
    ensures r.Image? ==> IsRgb(r.bytes, payload, width * height, true)
    ensures r == WrongSize <==> |payload| != width * height * 2
    ensures r == OddWidth <==> |payload| == width * height * 2 && width % 2 == 1
  {
    hide IsRgb, Render, AdapterPixels;
    var count := width * height;
    if |payload| != count * 2 {
      return WrongSize;
    }
    if width % 2 != 0 {
      return OddWidth;
    }
    EvenImage(width, height);
    AdapterRgb(payload, count);
    var rgb := AdapterLoop(payload, count);
    r := Image(rgb[..]);
  }

  /** The adapter's conversion loop. */
  method AdapterLoop(payload: seq<byte>, count: nat) returns (rgb: array<byte>)
    requires |payload| == 2 * count && count % 2 == 0
    ensures fresh(rgb) && rgb[..] == Render(AdapterPixels(payload, count))
  {
    hide AdapterPixel, AdapterPixels, Render;
    rgb := new byte[count * 3];
    var source, destination := 0, 0;
    ghost var n := 0;
    NoPixels(payload);
    while source < |payload|
      invariant source == 2 * n <= |payload| && destination == 3 * n && n % 2 == 0
      invariant rgb[..destination] == Render(AdapterPixels(payload, n))
    {
      AdapterPair(payload, n);
      var u, v := payload[source + 1], payload[source + 3];
      var first := AdapterPixel(payload[source], u, v);
      var second := AdapterPixel(payload[source + 2], u, v);
      WritePixel(rgb, destination, first, AdapterPixels(payload, n));
      destination := destination + 3;
      WritePixel(rgb, destination, second, AdapterPixels(payload, n) + [first]);
      destination := destination + 3;
      source := source + 4;
      n := n + 2;
    }
    assert rgb[..] == rgb[..destination];
  }

  lemma NoPixels(yuyv: seq<byte>)
    ensures Render(AdapterPixels(yuyv, 0)) == [] == Render(PipelinePixels(yuyv, 0))
  {
  }

  lemma PairChroma(yuyv: seq<byte>, p: nat)
    requires p % 2 == 0 && 2 * p + 3 < |yuyv|
    ensures Y(yuyv, p) == yuyv[2 * p] && Y(yuyv, p + 1) == yuyv[2 * p + 2]
    ensures U(yuyv, p) == U(yuyv, p + 1) == yuyv[2 * p + 1] && V(yuyv, p) == V(yuyv, p + 1) == yuyv[2 * p + 3]
  {
  }

  lemma AdapterPair(yuyv: seq<byte>, n: nat)
    requires n % 2 == 0 && 2 * n + 3 < |yuyv|
    ensures AdapterPixels(yuyv, n + 2)
         == AdapterPixels(yuyv, n) + [AdapterPixel(yuyv[2 * n], yuyv[2 * n + 1], yuyv[2 * n + 3])]
                                   + [AdapterPixel(yuyv[2 * n + 2], yuyv[2 * n + 1], yuyv[2 * n + 3])]
  {
    hide AdapterPixel, Y, U, V;
    PairChroma(yuyv, n);
  }

  lemma PipelinePair(yuyv: seq<byte>, n: nat)
    requires n % 2 == 0 && 2 * n + 3 < |yuyv|
    ensures PipelinePixels(yuyv, n + 2)
         == PipelinePixels(yuyv, n) + [PipelinePixel(yuyv[2 * n], yuyv[2 * n + 1], yuyv[2 * n + 3])]
                                    + [PipelinePixel(yuyv[2 * n + 2], yuyv[2 * n + 1], yuyv[2 * n + 3])]
  {
    hide PipelinePixel, Y, U, V;
    PairChroma(yuyv, n);
  }

  /** Three bytes at the write cursor, behind the pixels written before. */
  method WritePixel(rgb: array<byte>, at: nat, p: Pixel, ghost before: seq<Pixel>)
    requires at + 2 < rgb.Length && rgb[..at] == Render(before)
    modifies rgb
    ensures rgb[..at + 3] == Render(before + [p])
    ensures rgb[at + 3..] == old(rgb[at + 3..])
  {
    RenderSnoc(before, p);
    rgb[at] := p.r;
    rgb[at + 1] := p.g;
    rgb[at + 2] := p.b;
  }

  /** convert_yuyv_to_mono8: the luma bytes, in order. */
  method ConvertYuyvToMono8(payload: seq<byte>, width: u32, height: u32) returns (r: Converted)
    ensures Rejection(|payload|, width, height).Some? ==> r == Rejection(|payload|, width, height).value
    ensures Rejection(|payload|, width, height).None? ==>
              && r.Image? && |r.bytes| == width * height
              && forall p :: 0 <= p < width * height ==> 2 * p < |payload| && r.bytes[p] == payload[2 * p]
    ensures r == WrongSize <==> |payload| != width * height * 2
    ensures r == OddWidth <==> |payload| == width * height * 2 && width % 2 == 1
  {
    var count := width * height;
    if |payload| != count * 2 {
      return WrongSize;
    }
    if width % 2 != 0 {
      return OddWidth;
    }
    EvenImage(width, height);
    var mono := MonoLoop(payload, count);
    r := Image(mono[..]);
  }

  method MonoLoop(payload: seq<byte>, count: nat) returns (mono: array<byte>)
    requires |payload| == 2 * count && count % 2 == 0
    ensures fresh(mono) && mono.Length == count
    ensures forall p :: 0 <= p < count ==> mono[p] == payload[2 * p]
  {
    mono := new byte[count];
    var source, destination := 0, 0;
    while source < |payload|
      invariant 0 <= destination <= count && source == 2 * destination && destination % 2 == 0
      invariant forall p :: 0 <= p < destination ==> mono[p] == payload[2 * p]
    {
      mono[destination] := payload[source];
      destination := destination + 1;
      mono[destination] := payload[source + 2];
      destination := destination + 1;
      source := source + 4;
    }
  }

  /** frame_yuyv_to_rgb; its caller has checked that the data is not too short. A last odd pixel stays black. */
  method FrameYuyvToRgb(yuyv: seq<byte>, width: u32, height: u32) returns (rgb: array<byte>)
    requires |yuyv| >= width * height * 2
    ensures fresh(rgb) && rgb.Length == width * height * 3
    ensures var even := width * height / 2 * 2;
            && rgb[..3 * even] == Render(PipelinePixels(yuyv, even))
            && AllZero(rgb[3 * even..])
            && IsRgb(rgb[..3 * even], yuyv, even, false)
  {
    hide Render, PipelinePixels, AllZero, IsRgb;
    PipelineRgb(yuyv, width * height / 2 * 2);
    rgb := PipelineLoop(yuyv, width * height);
  }

  predicate AllZero(s: seq<byte>)
  {
    forall k :: 0 <= k < |s| ==> s[k] == 0
  }

  /** The pipeline's conversion loop. */
  method PipelineLoop(yuyv: seq<byte>, count: nat) returns (rgb: array<byte>)
    requires |yuyv| >= 2 * count
    ensures fresh(rgb) && rgb.Length == 3 * count
    ensures var even := count / 2 * 2;
            rgb[..3 * even] == Render(PipelinePixels(yuyv, even)) && AllZero(rgb[3 * even..])
  {
    hide PipelinePixel, PipelinePixels, Render, AllZero;
    rgb := ZeroedImage(3 * count);
    var at, out, i := 0, 0, 0;
    NoPixels(yuyv);
    assert rgb[0..] == rgb[..];
    while i + 1 < count
      invariant 0 <= i <= count && i % 2 == 0 && at == 2 * i && out == 3 * i
      invariant rgb[..out] == Render(PipelinePixels(yuyv, i))
      invariant AllZero(rgb[out..])
    {
      PipelinePair(yuyv, i);
      ghost var rest := rgb[out..][6..];
      ZeroTail(rgb[out..], 6);
      var u, v := yuyv[at + 1], yuyv[at + 3];
      var first := PipelinePixel(yuyv[at], u, v);
      var second := PipelinePixel(yuyv[at + 2], u, v);
      at := at + 4;
      WritePixel(rgb, out, first, PipelinePixels(yuyv, i));
      out := out + 3;
      assert rgb[out..][3..] == rest;
      assert rgb[out + 3..] == rgb[out..][3..];
      WritePixel(rgb, out, second, PipelinePixels(yuyv, i) + [first]);
      out := out + 3;
      i := i + 2;
    }
    assert i == count / 2 * 2;
  }

  /** resize of an empty vector: zeros. */
  method ZeroedImage(n: nat) returns (rgb: array<byte>)
    ensures fresh(rgb) && rgb.Length == n && AllZero(rgb[..])
  {
    rgb := new byte[n](_ => 0);
  }

  lemma ZeroTail(s: seq<byte>, n: nat)
    requires AllZero(s) && n <= |s|
    ensures AllZero(s[n..])
  {
  }

  // ---------------------------------------------------------------- properties

  /** Every YUYV frame that the receiver accepts meets the converters' checks. */
  lemma AcceptedFramesConvert(h: FrameHeader, limit: u32, payload: seq<byte>)
    requires ValidateHeader(h, limit) == Accepted && h.pixelFormat == PIX_FMT_YUYV && |payload| == h.payloadSize
    ensures Rejection(|payload|, h.width, h.height) == None
  {
    ValidateIff(h, limit);
  }

  /** Where the two colour conversions give the same pixel: luma in range, or neutral chroma under which
      black stays black, or one saturated blue corner. */
  predicate SameColour(y: byte, u: byte, v: byte)
  {
    y >= 16 || (v == 128 && (u == 127 || u == 128)) || (y == 15 && u == 255 && 67 <= v <= 128)
  }

  lemma ClampedEqual(a: int, b: int)
    requires a <= b
    ensures Clamp(a) == Clamp(b) <==> a == b || b <= 0 || a >= 255
  {
  }

  lemma RedAgrees(c: int, e: int)
    requires -16 <= c <= -1 && -128 <= e <= 127
    ensures Clamp((298 * c + 409 * e + 128) / 256) == Clamp((409 * e + 128) / 256) <==> e <= 0
  {
    ClampedEqual((298 * c + 409 * e + 128) / 256, (409 * e + 128) / 256);
  }

  lemma GreenAgrees(c: int, d: int, e: int)
    requires -16 <= c <= -1 && -128 <= d <= 127 && -128 <= e <= 127
    ensures Clamp((298 * c - 100 * d - 208 * e + 128) / 256) == Clamp((-100 * d - 208 * e + 128) / 256)
            <==> -100 * d - 208 * e < 128
  {
    ClampedEqual((298 * c - 100 * d - 208 * e + 128) / 256, (-100 * d - 208 * e + 128) / 256);
  }

  lemma BlueAgrees(c: int, d: int)
    requires -16 <= c <= -1 && -128 <= d <= 127
    ensures Clamp((298 * c + 516 * d + 128) / 256) == Clamp((516 * d + 128) / 256) <==> d <= 0 || (d == 127 && c == -1)
  {
    ClampedEqual((298 * c + 516 * d + 128) / 256, (516 * d + 128) / 256);
  }

  lemma PixelsAgreeIff(y: byte, u: byte, v: byte)
    ensures AdapterPixel(y, u, v) == PipelinePixel(y, u, v) <==> SameColour(y, u, v)
  {
    if y < 16 {
      RedAgrees(y - 16, v - 128);
      GreenAgrees(y - 16, u - 128, v - 128);
      BlueAgrees(y - 16, u - 128);
      hide Clamp;
    }
  }

  /** The two converters agree on an image if and only if every pixel is one of those; in particular on
      every image whose luma bytes are all at least 16. */
  lemma ConvertersAgreeIff(yuyv: seq<byte>, n: nat)
    ensures Render(AdapterPixels(yuyv, n)) == Render(PipelinePixels(yuyv, n))
            <==> (forall p :: 0 <= p < n ==> SameColour(Y(yuyv, p), U(yuyv, p), V(yuyv, p)))
    ensures (forall p :: 0 <= p < n ==> Y(yuyv, p) >= 16)
            ==> Render(AdapterPixels(yuyv, n)) == Render(PipelinePixels(yuyv, n))
  {
    hide AdapterPixel, PipelinePixel, Y, U, V, Render;
    var a, b := AdapterPixels(yuyv, n), PipelinePixels(yuyv, n);
    forall p | 0 <= p < n
      ensures a[p] == b[p] <==> SameColour(Y(yuyv, p), U(yuyv, p), V(yuyv, p))
    {
      PixelsAgreeIff(Y(yuyv, p), U(yuyv, p), V(yuyv, p));
    }
    RenderInjective(a, b);
    assert a == b <==> forall p :: 0 <= p < n ==> a[p] == b[p];
  }

  lemma RenderInjective(a: seq<Pixel>, b: seq<Pixel>)
    requires |a| == |b|
    ensures Render(a) == Render(b) <==> a == b
  {
    hide Render;
    if Render(a) == Render(b) {
      forall p | 0 <= p < |a| ensures a[p] == b[p] {
        RenderAt(a, p);
        RenderAt(b, p);
      }
    }
  }

  /** They do differ: dark luma under coloured chroma. */
  lemma ConvertersDiffer()
    ensures AdapterPixel(0, 128, 255) != PipelinePixel(0, 128, 255)
  {
    PixelsAgreeIff(0, 128, 255);
    hide AdapterPixel, PipelinePixel;
  }
}
