/**
 * The integer colour helpers of the host-side converter: the Spectrum colour
 * code to RGB table, clamping to a byte, the hue shift, and the distance
 * between two YUV triples.  The floating-point RGB/YUV/HSV conversions are
 * not part of this module; the 16 YUV reference colours derived from
 * `ZxToRgb` are taken as a given `Palette`.
 */
module Colour {
  import opened Bytes

  datatype Rgb = Rgb(r: byte, g: byte, b: byte)

  /** One `yuv_t`: three byte channels, addressed by index as the source does with `[j]`. */
  datatype Yuv = Yuv(y: byte, u: byte, v: byte) {
    function At(j: int): byte
      requires 0 <= j < 3
    {
      if j == 0 then y else if j == 1 then u else v
    }

    function With(j: int, c: byte): (t: Yuv)
      requires 0 <= j < 3
      ensures t.At(j) == c
      ensures forall k :: 0 <= k < 3 && k != j ==> t.At(k) == At(k)
    {
      if j == 0 then this.(y := c) else if j == 1 then this.(u := c) else this.(v := c)
    }
  }

  /** `palyuv`: the YUV value of each of the 16 Spectrum colour codes (8 colours, 2 brightness banks). */
  type Palette = p: seq<Yuv> | |p| == 16 witness seq(16, _ => Yuv(0, 0, 0))

  /** Intensity of a lit channel: 240 when the bright bit (bit 3) is set, else 200. */
  function Level(zx: byte): nat { if (zx / 8) % 2 == 1 then 240 else 200 }

  /**
   * `zxtorgb`: bit 1 lights red, bit 2 green, bit 0 blue; the two blues get 15
   * more.  The blue channel is an `unsigned char`, so the `+= 15` is written
   * with its wrap-around; the contract shows the wrap never happens.
   */
  function ZxToRgb(zx: byte): (c: Rgb)
    ensures c.r == (if (zx / 2) % 2 == 1 then Level(zx) else 0)
    ensures c.g == (if (zx / 4) % 2 == 1 then Level(zx) else 0)
    ensures c.b == (if zx % 2 == 1 then Level(zx) + (if zx % 8 == 1 then 15 else 0) else 0)
    ensures c.r <= 240 && c.g <= 240 && c.b <= 255
  {
    var r := (zx / 2) % 2;  // zx & 2
    var g := (zx / 4) % 2;  // zx & 4
    var b := zx % 2;        // zx & 1
    var br := if (zx / 8) % 2 == 1 then 240 else 200;
    var blue := if b != 0 then br else 0;
    Rgb(if r != 0 then br else 0,
        if g != 0 then br else 0,
        if zx % 8 == 1 then (blue + 15) % 0x100 else blue)
  }

  /** Two colour codes give the same RGB exactly when they are equal or both black (0 and 8). */
  lemma ZxToRgbDistinct(a: byte, b: byte)
    requires a < 16 && b < 16
    ensures ZxToRgb(a) == ZxToRgb(b) <==> a == b || (a % 8 == 0 && b % 8 == 0)
  {
  }

  function Gap(a: int, b: int): nat { Abs(a - b) }

  /** `clamp`: the byte nearest to `i`. */
  function Clamp(i: int): (r: byte)
    ensures 0 <= i < 0x100 ==> r == i
    ensures forall v: byte :: Gap(r, i) <= Gap(v, i)
  {
    if i < 0 then 0 else if i > 255 then 255 else i
  }

  /** `htweak`: the hue shift wraps modulo 256 instead of clamping. */
  function HTweak(value: byte, shift: byte): byte
  {
    (value + shift + 128) % 0x100
  }

  /** The default shift 128 (the tweak defaults set in `main`) leaves a hue unchanged. */
  lemma HTweakDefault(value: byte)
    ensures HTweak(value, 128) == value
  {
    assert value + 128 + 128 == value + 0x100;
  }

  /** Adding a multiple of 256 does not change a value modulo 256. */
  lemma {:induction false} ModMultiple(k: nat, r: int)
    ensures (0x100 * k + r) % 0x100 == r % 0x100
  {
    if k > 0 {
      ModMultiple(k - 1, r);
      assert 0x100 * k + r == (0x100 * (k - 1) + r) + 0x100;
    }
  }

  /** Reducing the first summand modulo 256 first does not change the sum modulo 256. */
  lemma ModAddLeft(a: nat, b: int)
    ensures (a % 0x100 + b) % 0x100 == (a + b) % 0x100
  {
    ModMultiple(a / 0x100, a % 0x100 + b);
  }

  /** Two hue shifts compose into one: the shifts add up modulo 256. */
  lemma HTweakCompose(value: byte, s: byte, t: byte)
    ensures HTweak(HTweak(value, s), t) == HTweak(value, (s + t + 128) % 0x100)
  {
    ModAddLeft(value + s + 128, t + 128);
    ModAddLeft(s + t + 128, value + 128);
  }

  /** Shifting by `s` and then by `256 - s` restores the hue: no information is lost by wrapping. */
  lemma HTweakUndo(value: byte, s: byte)
    ensures HTweak(HTweak(value, s), (0x100 - s) % 0x100) == value
  {
    HTweakCompose(value, s, (0x100 - s) % 0x100);
    assert (s + (0x100 - s) % 0x100 + 128) % 0x100 == 128;
    HTweakDefault(value);
  }

  /** `yuvdist`: the sum of absolute channel differences (exact, as the channels are bytes). */
  function Dist(p: Yuv, q: Yuv): (d: nat)
    ensures d == 0 <==> p == q
    ensures d <= 3 * 255
  {
    Abs(p.y - q.y) + Abs(p.u - q.u) + Abs(p.v - q.v)
  }

  /** `yuvdist` is a metric: symmetric and satisfying the triangle inequality. */
  lemma DistMetric(p: Yuv, q: Yuv, s: Yuv)
    ensures Dist(p, q) == Dist(q, p)
    ensures Dist(p, s) <= Dist(p, q) + Dist(q, s)
  {
  }

  /** Index of the ink colour of attribute `a` in the 16-entry table: `(a & 7) + ((a >> 6) << 3)`. */
  function InkIndex(a: byte): (k: nat)
    requires a < 128
    ensures k < 16 && k % 8 == a % 8 && k / 8 == a / 64
  {
    a % 8 + (a / 64) * 8
  }

  /** Index of the paper colour of attribute `a`: `((a >> 3) & 7) + ((a >> 6) << 3)`. */
  function PaperIndex(a: byte): (k: nat)
    requires a < 128
    ensures k < 16 && k % 8 == (a / 8) % 8 && k / 8 == a / 64
  {
    (a / 8) % 8 + (a / 64) * 8
  }

  function Ink(palyuv: Palette, a: byte): Yuv
    requires a < 128
  {
    palyuv[InkIndex(a)]
  }

  function Paper(palyuv: Palette, a: byte): Yuv
    requires a < 128
  {
    palyuv[PaperIndex(a)]
  }
}
